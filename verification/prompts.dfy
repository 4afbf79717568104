/** The fixed instruction texts sent to the generation endpoint. */
module Prompts {
  import opened Wrappers
  import opened PyStr

  const McqHead: string := "Generate 20 multiple choice questions about the topic: '"

  const McqTail: string :=
    "' for Licensed Examination Teachers (LET) Philippines. "
    + "Each item must have four choices labeled a, b, c, and d, and specify the correct answer as 'answer': 'a'. "
    + "Respond in JSON array format only. Example:\n"
    + "[{'question': '...', 'a': '...', 'b': '...', 'c': '...', 'd': '...', 'answer': '...'}, ...]"

  /** `build_mcq_prompt`: the topic is embedded verbatim, unescaped, between
      the fixed head and tail. */
  function BuildMcqPrompt(topic: string): (r: string)
    ensures Contains(r, topic)
    ensures StartsWith(r, McqHead)
  {
    var r := McqHead + topic + McqTail;
    assert r[|McqHead|..|McqHead| + |topic|] == topic;
    assert OccursAt(r, topic, |McqHead|);
    ContainsIffOccurs(r, topic);
    r
  }

  /** Recovers the topic from a prompt built by `BuildMcqPrompt`. */
  function TopicOfMcqPrompt(prompt: string): Option<string> {
    if |McqHead| + |McqTail| <= |prompt|
       && prompt[..|McqHead|] == McqHead
       && prompt[|prompt| - |McqTail|..] == McqTail
    then Some(prompt[|McqHead|..|prompt| - |McqTail|])
    else None
  }

  lemma McqPromptRoundTrip(topic: string)
    ensures TopicOfMcqPrompt(BuildMcqPrompt(topic)) == Some(topic)
  {
    var r := BuildMcqPrompt(topic);
    assert r == McqHead + topic + McqTail;
    assert r[..|McqHead|] == McqHead;
    assert r[|r| - |McqTail|..] == McqTail;
    assert r[|McqHead|..|r| - |McqTail|] == topic;
  }

  /** Different topics give different prompts. */
  lemma McqPromptInjective(t1: string, t2: string)
    ensures BuildMcqPrompt(t1) == BuildMcqPrompt(t2) ==> t1 == t2
  {
    McqPromptRoundTrip(t1);
    McqPromptRoundTrip(t2);
  }

  const ExplanationHead: string :=
    "For each question object in the JSON array below, add a field called 'explanation'. "
    + "The explanation must be concise (under 100 characters). Only return valid JSON. No extra text.\n\n"

  /** `build_explanation_prompt`, given the `json.dumps(questions, indent=2)`
      text of the first quiz. */
  function BuildExplanationPrompt(questionsJson: string): (r: string)
    ensures StartsWith(r, ExplanationHead)
    ensures Contains(r, questionsJson)
  {
    var r := ExplanationHead + questionsJson;
    assert r[|ExplanationHead|..] == questionsJson;
    assert OccursAt(r, questionsJson, |ExplanationHead|);
    ContainsIffOccurs(r, questionsJson);
    r
  }

  /** Recovers the serialised quiz from an explanation prompt. */
  function QuizJsonOfExplanationPrompt(prompt: string): Option<string> {
    if StartsWith(prompt, ExplanationHead) then Some(prompt[|ExplanationHead|..]) else None
  }

  /** The explanation prompt carries the serialised quiz unchanged after its head. */
  lemma ExplanationPromptRoundTrip(questionsJson: string)
    ensures QuizJsonOfExplanationPrompt(BuildExplanationPrompt(questionsJson)) == Some(questionsJson)
    ensures StartsWith(BuildExplanationPrompt(questionsJson), ExplanationHead)
  {
    var r := BuildExplanationPrompt(questionsJson);
    assert r[..|ExplanationHead|] == ExplanationHead;
    assert r[|ExplanationHead|..] == questionsJson;
  }
}
