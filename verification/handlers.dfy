/** `handle_topic` and `fallback`: the group-mention gate, the two generation
    rounds and the dispatch of the polls. */
module Handlers {
  import opened Wrappers
  import opened PyStr
  import opened Domain
  import opened Prompts
  import opened Gemini
  import opened Dispatch

  /** What a handler can see besides the message: the bot's own username, the
      generation backend, `json.dumps(questions, indent=2)` and
      `telegram.helpers.escape_markdown(text, version=2)`. */
  datatype Env = Env(botUsername: string, backend: Backend, dumps: Quiz -> string, escape: string -> string)

  predicate InGroup(chat: ChatType) {
    chat == Group || chat == Supergroup
  }

  /** `f"@{bot_username}"` with the username lower-cased. */
  function Mention(username: string): string {
    "@" + Lower(username)
  }

  lemma MentionHasNoEdgeSpace(username: string)
    requires NoEdgeSpace(username)
    ensures 0 < |Mention(username)| && NoEdgeSpace(Mention(username))
  {
    var m := Mention(username);
    if 0 < |username| {
      assert m[|m| - 1] == LowerChar(username[|username| - 1]);
    }
  }

  /** A mention found in the lower-cased stripped text is found in the
      lower-cased raw text; for a username with no whitespace at its ends
      the converse holds too, so stripping first is immaterial. */
  lemma MentionInRawText(text: string, username: string)
    ensures Contains(Lower(Strip(text)), Mention(username)) ==> Contains(Lower(text), Mention(username))
    ensures NoEdgeSpace(username) ==>
      (Contains(Lower(Strip(text)), Mention(username)) <==> Contains(Lower(text), Mention(username)))
  {
    LowerStripCommute(text);
    var p, q := StripSplits(Lower(text));
    ContainsInfix(p, Strip(Lower(text)), q, Mention(username));
    if NoEdgeSpace(username) {
      MentionHasNoEdgeSpace(username);
      ContainsPadded(p, Strip(Lower(text)), q, Mention(username));
    }
  }

  /** Whether a handler answers the message at all: private chats always,
      groups and supergroups only when the lower-cased, stripped text contains
      the lower-cased mention. An answered group message has the mention
      somewhere in its raw text, in any case; for a username with no
      whitespace at its ends that is also enough. */
  function Addressed(msg: Message, username: string): (r: bool)
    ensures r && InGroup(msg.chat) ==> Contains(Lower(msg.text), Mention(username))
    ensures NoEdgeSpace(username) ==>
      (r <==> !InGroup(msg.chat) || Contains(Lower(msg.text), Mention(username)))
  {
    MentionInRawText(msg.text, username);
    !InGroup(msg.chat) || Contains(Lower(Strip(msg.text)), Mention(username))
  }

  /** The gate ignores case: texts and usernames that agree once lower-cased
      are treated alike. */
  lemma AddressedIgnoresCase(m1: Message, m2: Message, u1: string, u2: string)
    requires m1.chat == m2.chat
    requires Lower(m1.text) == Lower(m2.text) && Lower(u1) == Lower(u2)
    ensures Addressed(m1, u1) <==> Addressed(m2, u2)
  {
    LowerStripCommute(m1.text);
    LowerStripCommute(m2.text);
  }

  /** Python's truth test on `ask_gemini`'s result: `None` and `[]` are false. */
  predicate Falsy(r: Option<Quiz>) {
    r.None? || |r.value| == 0
  }

  const GeneratingHead: string := "\U{23F3} Generating 20 MCQs for topic: *"
  const GenerationFailed: string := "\U{274C} Gemini failed to generate questions."
  const ExplanationFailed: string := "\U{274C} Gemini failed to add explanations."
  const QuizComplete: string := "\U{2705} Quiz complete!"
  const UseStart: string := "Please use /start to begin."

  /** The Markdown notice naming the topic, shown before generation starts. */
  function GeneratingNotice(topic: string): Action {
    Reply(GeneratingHead + topic + "*", true)
  }

  /** The notice is a Markdown reply: the fixed head, then the topic, then
      the closing `*`, so the topic can be read back out of it. */
  lemma GeneratingNoticeReadsBack(topic: string)
    ensures var r := GeneratingNotice(topic);
      && r.Reply? && r.markdown
      && StartsWith(r.text, GeneratingHead)
      && |r.text| == |GeneratingHead| + |topic| + 1 && r.text[|r.text| - 1] == '*'
      && r.text[|GeneratingHead|..|r.text| - 1] == topic
  {
    var t := GeneratingNotice(topic).text;
    assert t[..|GeneratingHead|] == GeneratingHead;
    assert t[|GeneratingHead|..|t| - 1] == topic;
  }

  /** The first generation round: the MCQ prompt for the stripped text. A
      failed request fails the round, and with a decoder that rejects bare
      text a quiz comes only from a reply holding a bracketed span. */
  function FirstRound(msg: Message, env: Env): (r: Option<Quiz>)
    ensures env.backend.generate(BuildMcqPrompt(Strip(msg.text))).None? ==> r.None?
    ensures r.Some? && RejectsBareText(env.backend.parse) ==>
      HasSpan(env.backend.generate(BuildMcqPrompt(Strip(msg.text))).value)
  {
    AskGemini(BuildMcqPrompt(Strip(msg.text)), env.backend)
  }

  /** The second round, asking for explanations of the first round's quiz,
      with the same failure and span guarantees as the first. */
  function SecondRound(raw: Quiz, env: Env): (r: Option<Quiz>)
    ensures env.backend.generate(BuildExplanationPrompt(env.dumps(raw))).None? ==> r.None?
    ensures r.Some? && RejectsBareText(env.backend.parse) ==>
      HasSpan(env.backend.generate(BuildExplanationPrompt(env.dumps(raw))).value)
  {
    AskGemini(BuildExplanationPrompt(env.dumps(raw)), env.backend)
  }

  /** `handle_topic`. The topic is the whole stripped text, mention included.
      An unaddressed group message gets no reply and keeps the state; every
      other message ends the conversation after the notice and one closing
      reply, with the polls of the second round in between when both rounds
      produced a non-empty quiz. */
  function HandleTopic(msg: Message, env: Env): (o: Outcome)
    ensures !Addressed(msg, env.botUsername) ==> o.actions == [] && o.next == None
    ensures InGroup(msg.chat) && !Contains(Lower(msg.text), Mention(env.botUsername)) ==>
      o.actions == [] && o.next == None
    ensures Addressed(msg, env.botUsername) ==>
      o.next == Some(End) && 2 <= |o.actions| && o.actions[0] == GeneratingNotice(Strip(msg.text))
  {
    var topic := Strip(msg.text);
    if !Addressed(msg, env.botUsername) then Outcome([], None)
    else
      var notice := GeneratingNotice(topic);
      var raw := FirstRound(msg, env);
      if Falsy(raw) then Outcome([notice, Reply(GenerationFailed, false)], Some(End))
      else
        var enriched := SecondRound(raw.value, env);
        if Falsy(enriched) then Outcome([notice, Reply(ExplanationFailed, false)], Some(End))
        else Outcome([notice] + SendPolls(env.escape, enriched.value) + [Reply(QuizComplete, false)], Some(End))
  }

  /** Whether both generation rounds produced a non-empty quiz. */
  predicate BothRoundsSucceed(msg: Message, env: Env) {
    var raw := FirstRound(msg, env);
    !Falsy(raw) && !Falsy(SecondRound(raw.value, env))
  }

  lemma PollsSentSingle(a: Action)
    requires !a.SendPoll?
    ensures PollsSent([a]) == []
  {
    assert [a][1..] == [];
  }

  /** A failed first round — `None` or an empty list — ends the conversation
      with the failure reply and sends no poll. */
  lemma FirstRoundFailure(msg: Message, env: Env)
    requires Addressed(msg, env.botUsername)
    requires Falsy(FirstRound(msg, env))
    ensures HandleTopic(msg, env) ==
      Outcome([GeneratingNotice(Strip(msg.text)), Reply(GenerationFailed, false)], Some(End))
    ensures PollsSent(HandleTopic(msg, env).actions) == []
  {
    var o := HandleTopic(msg, env);
    PollsSentAppend([o.actions[0]], [o.actions[1]]);
    assert o.actions == [o.actions[0]] + [o.actions[1]];
    PollsSentSingle(o.actions[0]);
    PollsSentSingle(o.actions[1]);
  }

  /** A failed second round ends the conversation the same way, with its own
      reply, and sends no poll. */
  lemma SecondRoundFailure(msg: Message, env: Env)
    requires Addressed(msg, env.botUsername)
    requires !Falsy(FirstRound(msg, env))
    requires Falsy(SecondRound(FirstRound(msg, env).value, env))
    ensures HandleTopic(msg, env) ==
      Outcome([GeneratingNotice(Strip(msg.text)), Reply(ExplanationFailed, false)], Some(End))
    ensures PollsSent(HandleTopic(msg, env).actions) == []
  {
    var o := HandleTopic(msg, env);
    PollsSentAppend([o.actions[0]], [o.actions[1]]);
    assert o.actions == [o.actions[0]] + [o.actions[1]];
    PollsSentSingle(o.actions[0]);
    PollsSentSingle(o.actions[1]);
  }

  /** After two successful rounds the polls sent are those of the second
      round's quiz, one per question in order. */
  lemma QuizDispatched(msg: Message, env: Env)
    requires Addressed(msg, env.botUsername)
    requires BothRoundsSucceed(msg, env)
    ensures PollsSent(HandleTopic(msg, env).actions) ==
      MakePolls(env.escape, SecondRound(FirstRound(msg, env).value, env).value)
  {
    var quiz := SecondRound(FirstRound(msg, env).value, env).value;
    var notice := GeneratingNotice(Strip(msg.text));
    var polls := SendPolls(env.escape, quiz);
    PollsSentAppend([notice], polls);
    PollsSentAppend([notice] + polls, [Reply(QuizComplete, false)]);
    PollsSentSingle(notice);
    PollsSentSingle(Reply(QuizComplete, false));
    assert polls == PollCalls(MakePolls(env.escape, quiz), 1);
    PollCallsSendPolls(MakePolls(env.escape, quiz), 1);
  }

  /** After two successful rounds the last reply reports completion. */
  lemma QuizCompletes(msg: Message, env: Env)
    requires Addressed(msg, env.botUsername)
    requires BothRoundsSucceed(msg, env)
    ensures HandleTopic(msg, env).actions[|HandleTopic(msg, env).actions| - 1] == Reply(QuizComplete, false)
  {
  }

  /** Polls are sent exactly when the message is addressed to the bot and
      both generation rounds return a non-empty quiz. */
  lemma PollsSentIff(msg: Message, env: Env)
    ensures |PollsSent(HandleTopic(msg, env).actions)| > 0 <==>
      Addressed(msg, env.botUsername) && BothRoundsSucceed(msg, env)
  {
    if !Addressed(msg, env.botUsername) {
      assert HandleTopic(msg, env).actions == [];
    } else if !Falsy(FirstRound(msg, env)) && !Falsy(SecondRound(FirstRound(msg, env).value, env)) {
      QuizDispatched(msg, env);
    } else if Falsy(FirstRound(msg, env)) {
      FirstRoundFailure(msg, env);
    } else {
      SecondRoundFailure(msg, env);
    }
  }

  /** `fallback`: outside a conversation, an addressed message gets the
      reminder to use /start, an unaddressed group message nothing. A private
      message always gets the reminder; a group message whose raw text lacks
      the mention in any case never does. */
  function Fallback(msg: Message, username: string): (o: Outcome)
    ensures o.next == None
    ensures !InGroup(msg.chat) ==> o.actions == [Reply(UseStart, false)]
    ensures InGroup(msg.chat) && !Contains(Lower(msg.text), Mention(username)) ==> o.actions == []
    ensures NoEdgeSpace(username) && Contains(Lower(msg.text), Mention(username)) ==>
      o.actions == [Reply(UseStart, false)]
    ensures Addressed(msg, username) ==> o.actions == [Reply(UseStart, false)]
    ensures !Addressed(msg, username) ==> o.actions == []
  {
    if Addressed(msg, username) then Outcome([Reply(UseStart, false)], None) else Outcome([], None)
  }

  /** The gate duplicated in both handlers behaves identically: each stays
      silent on exactly the same messages. */
  lemma SameGate(msg: Message, env: Env)
    ensures HandleTopic(msg, env).actions == [] <==> Fallback(msg, env.botUsername).actions == []
  {
  }

  /** A backend that always answers `reply`, which always parses to `quiz`. */
  function FixedEnv(reply: string, quiz: Quiz): Env {
    Env("kwestyon_bot", Backend(prompt => Some(reply), text => Some(quiz)), questions => reply, text => text)
  }

  lemma FixedEnvOutcome(topic: string, reply: string, quiz: Quiz)
    requires 0 < |quiz|
    ensures HandleTopic(Message(Private, topic), FixedEnv(reply, quiz)) ==
      Outcome([GeneratingNotice(Strip(topic))] + SendPolls(FixedEnv(reply, quiz).escape, quiz) + [Reply(QuizComplete, false)], Some(End))
  {
    var msg := Message(Private, topic);
    var env := FixedEnv(reply, quiz);
    assert Addressed(msg, env.botUsername);
    assert FirstRound(msg, env) == Some(quiz);
    assert SecondRound(quiz, env) == Some(quiz);
    assert BothRoundsSucceed(msg, env);
  }

  /** The calls for a two-question quiz answered `b` and `d`: the question-1
      block follows the notice and marks option 1 correct, the question-2
      block follows it and marks option 3 correct, and the completion reply
      comes last. */
  lemma TwoQuestionCalls(escape: string -> string, notice: Action, q1: Question, q2: Question)
    requires "answer" in q1 && q1["answer"] == "b"
    requires "answer" in q2 && q2["answer"] == "d"
    ensures var actions := [notice] + SendPolls(escape, [q1, q2]) + [Reply(QuizComplete, false)];
      && |actions| == 14
      && actions[1] == SendMessage(Announcement(1))
      && actions[5] == SendPoll(MakePoll(escape, q1))
      && actions[5].poll.correctOption == 1
      && actions[7] == SendMessage(Announcement(2))
      && actions[11] == SendPoll(MakePoll(escape, q2))
      && actions[11].poll.correctOption == 3
      && actions[13] == Reply(QuizComplete, false)
  {
    var quiz := [q1, q2];
    var polls := SendPolls(escape, quiz);
    var actions := [notice] + polls + [Reply(QuizComplete, false)];
    assert polls[0] == SendMessage(Announcement(1)) && polls[4] == SendPoll(MakePoll(escape, q1)) by {
      SendPollsNumbering(escape, quiz, 0);
    }
    assert polls[6] == SendMessage(Announcement(2)) && polls[10] == SendPoll(MakePoll(escape, q2)) by {
      SendPollsNumbering(escape, quiz, 1);
    }
    assert MakePoll(escape, q1).correctOption == 1 by {
      assert "" + ['b'] + "" == "b";
      LetterAnswerIndex(q1, "", 'b', "");
    }
    assert MakePoll(escape, q2).correctOption == 3 by {
      assert "" + ['d'] + "" == "d";
      LetterAnswerIndex(q2, "", 'd', "");
    }
    assert actions[1] == polls[0] && actions[5] == polls[4];
    assert actions[7] == polls[6] && actions[11] == polls[10];
  }

  /** Any topic (such as "Child Development") sent in a private chat, with
      generation returning two questions answered `b` and `d`: the question-1
      block comes first with correct option 1, then the question-2 block with
      correct option 3, then the completion reply. */
  lemma TwoQuestionScenario(topic: string, reply: string, q1: Question, q2: Question)
    requires "answer" in q1 && q1["answer"] == "b"
    requires "answer" in q2 && q2["answer"] == "d"
    ensures var env := FixedEnv(reply, [q1, q2]);
      var o := HandleTopic(Message(Private, topic), env);
      && o.next == Some(End)
      && |o.actions| == 14
      && o.actions[1] == SendMessage(Announcement(1))
      && o.actions[5] == SendPoll(MakePoll(env.escape, q1))
      && o.actions[5].poll.correctOption == 1
      && o.actions[7] == SendMessage(Announcement(2))
      && o.actions[11] == SendPoll(MakePoll(env.escape, q2))
      && o.actions[11].poll.correctOption == 3
      && o.actions[13] == Reply(QuizComplete, false)
  {
    FixedEnvOutcome(topic, reply, [q1, q2]);
    TwoQuestionCalls(FixedEnv(reply, [q1, q2]).escape, GeneratingNotice(Strip(topic)), q1, q2);
  }
}
