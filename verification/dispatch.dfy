/** `send_polls`: each question becomes a numbered announcement, a pin and a
    quiz poll, with fixed pauses between the calls. */
module Dispatch {
  import opened Wrappers
  import opened PyStr
  import opened Domain

  /** The keys whose values become the four poll options, in order. */
  const OptionKeys: seq<string> := ["a", "b", "c", "d"]

  /** The four option texts: the values of `a`, `b`, `c`, `d`, each `""` when
      the question lacks that key. */
  function Options(q: Question): (r: seq<string>)
    ensures |r| == 4
    ensures forall i :: 0 <= i < 4 ==> (OptionKeys[i] in q ==> r[i] == q[OptionKeys[i]])
    ensures forall i :: 0 <= i < 4 ==> (OptionKeys[i] !in q ==> r[i] == "")
  {
    [Get(q, "a"), Get(q, "b"), Get(q, "c"), Get(q, "d")]
  }

  /** `q.get("answer", "").strip().upper()`: no whitespace at either end and
      no lower-case ASCII letter left. */
  function AnswerLetter(q: Question): (r: string)
    ensures |r| <= |Get(q, "answer")|
    ensures NoEdgeSpace(r)
    ensures forall i :: 0 <= i < |r| ==> !('a' <= r[i] <= 'z')
  {
    var s := Strip(Get(q, "answer"));
    assert |s| <= |Get(q, "answer")| by {
      var p, t := StripSplits(Get(q, "answer"));
    }
    Upper(s)
  }

  /** The answer letter is a single `A`..`D`, a key of the lookup table. */
  predicate Recognised(letter: string) {
    |letter| == 1 && 'A' <= letter[0] <= 'D'
  }

  /** `{"A": 0, "B": 1, "C": 2, "D": 3}.get(letter, 0)`: the four one-letter
      keys are compared character by character. */
  function LetterToIndex(letter: string): (r: nat)
    ensures Recognised(letter) ==> r == letter[0] as int - 'A' as int
    ensures !Recognised(letter) ==> r == 0
  {
    if |letter| != 1 then 0
    else if letter[0] == 'A' then 0
    else if letter[0] == 'B' then 1
    else if letter[0] == 'C' then 2
    else if letter[0] == 'D' then 3
    else 0
  }

  /** The source's lookup table. */
  const LetterTable: map<string, nat> := map["A" := 0, "B" := 1, "C" := 2, "D" := 3]

  /** The character-wise lookup agrees with the table and its default of 0. */
  lemma LetterToIndexIsTableLookup(letter: string)
    ensures LetterToIndex(letter) == (if letter in LetterTable then LetterTable[letter] else 0)
  {
    if |letter| == 1 {
      assert letter == [letter[0]];
    }
  }

  /** The poll's correct option: A..D select options 0..3, and anything
      else (a missing answer included) silently selects the first. */
  function CorrectIndex(q: Question): (r: nat)
    ensures r < 4
    ensures Recognised(AnswerLetter(q)) ==> r == AnswerLetter(q)[0] as int - 'A' as int
    ensures !Recognised(AnswerLetter(q)) ==> r == 0
  {
    LetterToIndex(AnswerLetter(q))
  }

  /** The zero-based index a letter names, for `a`..`d` in either case. */
  function LetterIndex(c: char): nat
    requires c in "aAbBcCdD"
  {
    if c in "aA" then 0 else if c in "bB" then 1 else if c in "cC" then 2 else 3
  }

  /** An answer that is one of `a`..`d` or `A`..`D`, with any whitespace around
      it, selects that letter's option. */
  lemma LetterAnswerIndex(q: Question, before: string, c: char, after: string)
    requires AllSpace(before) && AllSpace(after)
    requires c in "aAbBcCdD"
    requires "answer" in q && q["answer"] == before + [c] + after
    ensures CorrectIndex(q) == LetterIndex(c)
  {
    StripPadded(before, [c], after);
    assert AnswerLetter(q) == [UpperChar(c)];
  }

  lemma UpperLetter(s: string, c: char)
    requires c in "ABCD"
    ensures Upper(s) == [c] <==> |s| == 1 && (s[0] == c || s[0] == LowerChar(c))
  {
    if Upper(s) == [c] {
      assert UpperChar(s[0]) == c;
    }
  }

  /** The index is nonzero exactly when the stripped answer is a single `b`,
      `c` or `d` in either case: a missing key, an empty answer, `a`, and any
      other letter or word all select the first option. */
  lemma NonZeroIndexIff(q: Question)
    ensures CorrectIndex(q) != 0 <==>
      (var a := Strip(Get(q, "answer")); |a| == 1 && a[0] in "bBcCdD")
  {
    var a := Strip(Get(q, "answer"));
    UpperLetter(a, 'B');
    UpperLetter(a, 'C');
    UpperLetter(a, 'D');
  }

  /** When the answer letter is recognised, the option marked correct is the
      text stored under that letter's (lower-case) key. */
  lemma CorrectOptionIsAnswerChoice(q: Question)
    requires Recognised(AnswerLetter(q))
    ensures Options(q)[CorrectIndex(q)] == Get(q, Lower(AnswerLetter(q)))
  {
    var r := CorrectIndex(q);
    assert Lower(AnswerLetter(q)) == [LowerChar(AnswerLetter(q)[0])];
  }

  /** Keys other than `a`..`d` have no influence on the options. */
  lemma OptionsIgnoreOtherKeys(q: Question, k: string, v: string)
    requires k !in OptionKeys
    ensures Options(q[k := v]) == Options(q)
  {
    assert forall i :: 0 <= i < 4 ==> OptionKeys[i] != k;
  }

  /** `f"*{text}*"`: the Markdown bold wrapping of the poll question. */
  function Bold(text: string): string {
    "*" + text + "*"
  }

  /** The poll for one question. `escape` stands for
      `telegram.helpers.escape_markdown(…, version=2)`, and the escaped
      question is wrapped in `*` for bold. */
  function MakePoll(escape: string -> string, q: Question): (p: Poll)
    ensures |p.options| == 4 && p.correctOption < 4
    ensures "explanation" !in q ==> p.explanation == ""
  {
    Poll(Bold(escape(Get(q, "question"))), Options(q), CorrectIndex(q), Get(q, "explanation"))
  }

  /** The poll question is a `*`, the escaped question text, and a `*`; a
      question without the `question` key is sent as the escape of `""` in
      bold, `**` when that escape is empty. */
  lemma MakePollQuestion(escape: string -> string, q: Question)
    ensures var t := MakePoll(escape, q).question;
      2 <= |t| && t[0] == '*' && t[|t| - 1] == '*' && t[1..|t| - 1] == escape(Get(q, "question"))
    ensures "question" !in q && escape("") == "" ==> MakePoll(escape, q).question == "**"
  {
    var t := MakePoll(escape, q).question;
    assert t[1..|t| - 1] == escape(Get(q, "question"));
  }

  const AnnouncementHead: string := "\U{1F539} Question no. "

  /** `f"🔹 Question no. {i}"`: the fixed head, then only digits. */
  function Announcement(n: nat): (r: string)
    ensures StartsWith(r, AnnouncementHead)
    ensures AllDigits(r[|AnnouncementHead|..])
  {
    var r := AnnouncementHead + DecimalString(n);
    assert r[|AnnouncementHead|..] == DecimalString(n);
    r
  }

  /** The digits after the head read back as the question number. */
  lemma AnnouncementReadsBack(n: nat)
    ensures DecimalValue(Announcement(n)[|AnnouncementHead|..]) == n
  {
    assert Announcement(n)[|AnnouncementHead|..] == DecimalString(n);
    DecimalRoundTrip(n);
  }

  /** Different question numbers are announced with different texts. */
  lemma AnnouncementInjective(m: nat, n: nat)
    ensures Announcement(m) == Announcement(n) ==> m == n
  {
    AnnouncementReadsBack(m);
    AnnouncementReadsBack(n);
  }

  /** The polls among a sequence of calls, in order. */
  function PollsSent(actions: seq<Action>): seq<Poll> {
    if |actions| == 0 then []
    else (if actions[0].SendPoll? then [actions[0].poll] else []) + PollsSent(actions[1..])
  }

  /** One poll per question, in list order. */
  function MakePolls(escape: string -> string, quiz: Quiz): (r: seq<Poll>)
    ensures |r| == |quiz|
    ensures forall k :: 0 <= k < |quiz| ==> r[k] == MakePoll(escape, quiz[k])
  {
    if |quiz| == 0 then []
    else
      var tail := MakePolls(escape, quiz[1..]);
      assert forall k :: 1 <= k < |quiz| ==> quiz[1..][k - 1] == quiz[k];
      [MakePoll(escape, quiz[0])] + tail
  }

  /** The calls for question number `n` with its poll: announce, wait 2 s,
      pin the announcement, wait 2 s, send the poll, wait 3 s. The only poll
      among them is the question's own. */
  function QuestionActions(n: nat, poll: Poll): (r: seq<Action>)
    ensures |r| == 6
    ensures PollsSent(r) == [poll]
  {
    var block := [SendMessage(Announcement(n)), Sleep(2), PinLastMessage, Sleep(2), SendPoll(poll), Sleep(3)];
    assert PollsSent(block[5..]) == [] by {
      assert block[5..][1..] == [];
    }
    assert PollsSent(block[4..]) == [poll] by {
      assert block[4..][1..] == block[5..];
    }
    assert PollsSent(block[3..]) == [poll] by {
      assert block[3..][1..] == block[4..];
    }
    assert PollsSent(block[2..]) == [poll] by {
      assert block[2..][1..] == block[3..];
    }
    assert PollsSent(block[1..]) == [poll] by {
      assert block[1..][1..] == block[2..];
    }
    block
  }

  /** The loop of `send_polls` over the questions' polls from question
      number `n` on: six calls per question. Building every poll before the
      first call is the same as building each inside the loop, since
      building a poll has no effect. */
  function PollCalls(polls: seq<Poll>, n: nat): (r: seq<Action>)
    ensures |r| == 6 * |polls|
    decreases |polls|
  {
    if |polls| == 0 then [] else QuestionActions(n, polls[0]) + PollCalls(polls[1..], n + 1)
  }

  /** Past the first block, the calls are those of the remaining polls,
      numbered from `n + 1`. */
  lemma PollCallsTail(polls: seq<Poll>, n: nat, i: nat)
    requires 6 <= i < 6 * |polls|
    ensures PollCalls(polls, n)[i] == PollCalls(polls[1..], n + 1)[i - 6]
  {
    assert PollCalls(polls, n) == QuestionActions(n, polls[0]) + PollCalls(polls[1..], n + 1);
  }

  /** Call `t` of block `k` is call `t` of the calls for `polls[k]` under
      number `n + k`. */
  lemma {:induction false} PollCallsAt(polls: seq<Poll>, n: nat, k: nat, t: nat)
    requires k < |polls| && t < 6
    ensures PollCalls(polls, n)[6 * k + t] == QuestionActions(n + k, polls[k])[t]
    decreases k
  {
    if k == 0 {
      assert PollCalls(polls, n) == QuestionActions(n, polls[0]) + PollCalls(polls[1..], n + 1);
    } else {
      PollCallsTail(polls, n, 6 * k + t);
      PollCallsAt(polls[1..], n + 1, k - 1, t);
      assert polls[1..][k - 1] == polls[k] && n + 1 + (k - 1) == n + k;
    }
  }

  lemma {:induction false} PollsSentAppend(a: seq<Action>, b: seq<Action>)
    ensures PollsSent(a + b) == PollsSent(a) + PollsSent(b)
    decreases |a|
  {
    if |a| > 0 {
      assert (a + b)[1..] == a[1..] + b;
      PollsSentAppend(a[1..], b);
    } else {
      assert a + b == b;
    }
  }

  /** The polls sent are exactly the given polls, in order. */
  lemma {:induction false} PollCallsSendPolls(polls: seq<Poll>, n: nat)
    ensures PollsSent(PollCalls(polls, n)) == polls
    decreases |polls|
  {
    if |polls| > 0 {
      PollsSentAppend(QuestionActions(n, polls[0]), PollCalls(polls[1..], n + 1));
      PollCallsSendPolls(polls[1..], n + 1);
      assert [polls[0]] + polls[1..] == polls;
    }
  }

  /** `send_polls`: questions are numbered from 1 in list order, six calls
      each, and the polls sent are one per question in that order. */
  function SendPolls(escape: string -> string, quiz: Quiz): (r: seq<Action>)
    ensures |r| == 6 * |quiz|
    ensures |PollsSent(r)| == |quiz|
    ensures forall k :: 0 <= k < |quiz| ==> PollsSent(r)[k] == MakePoll(escape, quiz[k])
  {
    PollCallsSendPolls(MakePolls(escape, quiz), 1);
    PollCalls(MakePolls(escape, quiz), 1)
  }

  /** In the calls for a list of polls numbered from `n`, block `k`
      announces number `n + k`, pins that announcement and sends `polls[k]`.
      The start number is left general: with a literal start the solver
      would evaluate the digits of every number it meets. */
  lemma PollCallsNumbering(polls: seq<Poll>, n: nat, k: nat)
    requires k < |polls|
    ensures PollCalls(polls, n)[6 * k] == SendMessage(Announcement(n + k))
    ensures PollCalls(polls, n)[6 * k + 2] == PinLastMessage
    ensures PollCalls(polls, n)[6 * k + 4] == SendPoll(polls[k])
  {
    PollCallsAt(polls, n, k, 0);
    PollCallsAt(polls, n, k, 2);
    PollCallsAt(polls, n, k, 4);
  }

  /** Question `k` (counting from 0) is announced as number `k + 1`, its
      announcement is pinned, and its poll is the fifth call of its block. */
  lemma SendPollsNumbering(escape: string -> string, quiz: Quiz, k: nat)
    requires k < |quiz|
    ensures SendPolls(escape, quiz)[6 * k] == SendMessage(Announcement(k + 1))
    ensures SendPolls(escape, quiz)[6 * k + 2] == PinLastMessage
    ensures SendPolls(escape, quiz)[6 * k + 4] == SendPoll(MakePoll(escape, quiz[k]))
  {
    var r := SendPolls(escape, quiz);
    var polls := MakePolls(escape, quiz);
    assert r == PollCalls(polls, 1);
    assert r[6 * k] == SendMessage(Announcement(1 + k)) by {
      PollCallsNumbering(polls, 1, k);
    }
    assert 1 + k == k + 1;
    PollCallsNumbering(polls, 1, k);
  }
}
