# kwestyon: a Dafny model of the quiz bot's decision rules

kwestyon is a Telegram bot. A user names a topic, and the bot asks the Gemini
language model for twenty multiple-choice questions about it. It then asks
the model again to add a short explanation to each question. Finally it
posts the questions to the chat as quiz polls. Each poll is preceded by a
numbered announcement, which the bot pins, and fixed pauses separate the
calls.

This project models the pure part of that flow and proves properties of it:

- `Prompts`: the two prompt texts. The topic and the serialised question
  list can each be read back out of the prompt built around them.
- `Gemini`: how a model reply is cut down to its JSON array. The cut runs
  from the first `[` up to and including the last `]`. A reply without such
  a span can never parse. An array wrapped in prose is cut out exactly when
  the prose before it holds no `[` and the prose after it no `]`. A `[` in
  the prose before it, as in `see [1]: [x]`, widens the cut into that prose.
- `GeminiExamples`: the reply `see [1]: [x]`, worked through the cut.
- `Dispatch`: `send_polls`.
  - Each question's options are the values of `a`..`d`.
  - The answer letter becomes the poll's correct option, and anything
    unrecognised defaults to the first option.
  - The poll question is the Markdown-escaped question text wrapped in `*`.
  - Each question yields six calls: announce, pause, pin, pause, poll,
    pause. Questions are numbered from 1.
  - The polls go out one per question, in list order.
- `Handlers`: `handle_topic` and `fallback`.
  - In groups and supergroups the bot answers only when the stripped,
    lower-cased text mentions `@<username>`. The mention must then occur
    in the raw text in some case; for a username without edge whitespace
    that is also enough.
  - A failed or empty generation round ends the conversation with a
    failure notice and sends no polls.
  - Polls go out exactly when the message is addressed to the bot and both
    rounds succeed.
- `PyStr`: the Python string operations those rules depend on, in their
  ASCII form. These are `strip`, `upper`, `lower`, `find`, `rfind`, slicing
  with negative and clamped bounds, `in`, and `str(int)`.
- `Wrappers`: `Option` and `dict.get(key, "")`.
- `Domain`: chats, messages, questions, polls, and the bot's calls to
  Telegram. These calls are recorded as a list of `Action` values, not
  performed.

The network, JSON decoding, JSON encoding and Markdown escaping are
parameters. A `Backend` holds `generate`, the HTTP request plus the
unwrapping of the response envelope, which yields the reply text or `None`
on any failure. It also holds `parse`, which stands for `json.loads`.
`Env.dumps` stands for `json.dumps(…, indent=2)`, and `Env.escape` for
`telegram.helpers.escape_markdown(…, version=2)`. The only property assumed
of `parse` is `Gemini.RejectsBareText`: it rejects the empty text and the
text `]`, as `json.loads` does. Nothing is assumed of `escape`.

## Model

| member | source | states |
|---|---|---|
| Wrappers.GetAfterStore | kwestyon.py:55-58 | after storing a value under a key, `get` of that key yields the value and `get` of every other key is unchanged |
| PyStr.Strip | kwestyon.py:87 | the stripped text has no whitespace at either end |
| PyStr.StripSplits | kwestyon.py:87 | every text is its stripped form with whitespace-only padding before and after it |
| PyStr.StripPadded | kwestyon.py:58 | stripping removes exactly the surrounding whitespace and nothing inside the kept text |
| PyStr.Upper | kwestyon.py:58 | upper-casing keeps the length and maps each character to its upper-case form |
| PyStr.Lower | kwestyon.py:91-92 | lower-casing keeps the length and maps each character to its lower-case form |
| PyStr.LowerStripCommute | kwestyon.py:87-92 | lower-casing the stripped text equals stripping the lower-cased text |
| PyStr.ContainsIffOccurs | kwestyon.py:92 | the `in` test holds exactly when the needle occurs at some position of the text |
| PyStr.ContainsInfix | kwestyon.py:87-92 | a needle found in a text is still found once text is added before and after it |
| PyStr.ContainsPadded | kwestyon.py:87-92 | a needle with no edge whitespace is found in a padded text exactly when it is found in the unpadded text |
| PyStr.Find | kwestyon.py:45 | the result is -1 exactly when the character is absent; otherwise it is the character's first position |
| PyStr.RFind | kwestyon.py:46 | the result is -1 exactly when the character is absent; otherwise it is the character's last position |
| PyStr.PySliceNegative | kwestyon.py:47 | a negative bound `-k` selects the same slice as the bound `len(s) - k`, at either end |
| PyStr.PySliceClamped | kwestyon.py:47 | a stop past the end acts as the end, and a start before `-len(s)` acts as 0 |
| PyStr.PySliceConcat | kwestyon.py:47 | adjacent in-range slices join: `s[i:j] + s[j:k] == s[i:k]`, and `s[0:len(s)]` is `s` |
| PyStr.DecimalString | kwestyon.py:62 | a question number prints as one or more digits, with a leading zero only for 0 |
| PyStr.DecimalRoundTrip | kwestyon.py:62 | reading the printed digits back gives the number |
| PyStr.DecimalStringInjective | kwestyon.py:62 | different numbers print differently |
| Prompts.BuildMcqPrompt | kwestyon.py:22-28 | the question prompt starts with the fixed request and contains the topic verbatim |
| Prompts.McqPromptRoundTrip | kwestyon.py:22-28 | the topic can be read back from the question prompt |
| Prompts.McqPromptInjective | kwestyon.py:22-28 | different topics give different question prompts |
| Prompts.BuildExplanationPrompt | kwestyon.py:30-35 | the explanation prompt starts with the fixed request and contains the serialised question list verbatim |
| Prompts.ExplanationPromptRoundTrip | kwestyon.py:30-35 | the serialised question list can be read back from the explanation prompt |
| Gemini.ArrayText | kwestyon.py:45-47 | the cut text is empty, a lone `]`, or at least two characters opening with `[` and closing with `]` |
| Gemini.SpanIsExtracted | kwestyon.py:45-47 | when a `[` comes before the last `]`, the cut is exactly the text from the first `[` through the last `]` |
| Gemini.NoSpanNoArray | kwestyon.py:45-47 | without such a span the cut is empty or a lone `]` |
| Gemini.ArrayTextSpan | kwestyon.py:45-47 | the cut opens with `[` if and only if the reply has a `[` before its last `]` |
| Gemini.ArrayTextNoClose | kwestyon.py:46-47 | a reply without `]` is cut to the empty text |
| Gemini.ArrayTextNoOpen | kwestyon.py:45-47 | a reply without `[` is cut to `]` when it ends with `]`, and to the empty text otherwise |
| Gemini.ArrayTextEmbedded | kwestyon.py:45-47 | a bracketed array after prose without `[`, and before prose without `]`, is cut out exactly |
| Gemini.PrecedingBracketWidensCut | kwestyon.py:45-47 | when the prose before a bracketed array holds a `[`, the cut starts at that `[` and is longer than the array |
| GeminiExamples.ReferenceMarkerWidensCut | kwestyon.py:45-47 | the reply `see [1]: [x]` is cut to `[1]: [x]`, not to `[x]` |
| Gemini.AskGemini | kwestyon.py:38-50 | a quiz comes back only from a successful request, and, with a decoder that rejects bare text, only from a reply with a `[` before its last `]`; a failed request gives `None` |
| Gemini.UnbracketedReplyFails | kwestyon.py:45-50 | a reply with no `[` before its last `]` always ends in `None` |
| Gemini.EmbeddedArrayIsParsed | kwestyon.py:44-47 | a reply holding a bracketed array, with no `[` in the prose before it and no `]` in the prose after it, is decoded as that array |
| Dispatch.Options | kwestyon.py:55 | there are four options, each the value under `a`..`d` or empty when that key is missing |
| Dispatch.OptionsIgnoreOtherKeys | kwestyon.py:55 | keys other than `a`..`d` do not affect the options |
| Dispatch.AnswerLetter | kwestyon.py:58 | the normalised answer is no longer than the stored one, has no edge whitespace and no lower-case letter |
| Dispatch.LetterToIndex | kwestyon.py:59-60 | `A`..`D` give 0..3 and anything else gives 0 |
| Dispatch.LetterToIndexIsTableLookup | kwestyon.py:59-60 | the lookup agrees with the source's four-entry table and its default of 0 |
| Dispatch.CorrectIndex | kwestyon.py:58-60 | the correct option is below 4: the recognised letter's offset from `A`, or 0 otherwise |
| Dispatch.LetterAnswerIndex | kwestyon.py:58-60 | an answer that is one letter `a`..`d` in either case, with any whitespace around it, selects that letter's option |
| Dispatch.NonZeroIndexIff | kwestyon.py:58-60 | the correct option is not the first exactly when the stripped answer is one of `b`, `c`, `d` in either case |
| Dispatch.CorrectOptionIsAnswerChoice | kwestyon.py:55-60 | for a recognised letter, the option marked correct is the text stored under that letter's lower-case key |
| Dispatch.MakePoll | kwestyon.py:55-76 | a poll has four options and a correct option below 4, and an empty explanation when that key is missing |
| Dispatch.MakePollQuestion | kwestyon.py:67 | the poll question is `*`, the escaped question text, `*`; a missing question is sent as `**` when the escape of the empty text is empty |
| Dispatch.Announcement | kwestyon.py:62 | the announcement is the fixed head followed by digits only |
| Dispatch.AnnouncementReadsBack | kwestyon.py:62 | the digits after the head read back as the question number |
| Dispatch.AnnouncementInjective | kwestyon.py:62 | different question numbers give different announcements |
| Dispatch.MakePolls | kwestyon.py:53-76 | there is one poll per question, and the k-th poll is built from the k-th question |
| Dispatch.QuestionActions | kwestyon.py:62-77 | one question's calls are six, and the only poll among them is that question's poll |
| Dispatch.PollCalls | kwestyon.py:53-77 | the loop makes exactly six calls per question |
| Dispatch.PollCallsAt | kwestyon.py:53-77 | call t of block k is call t of the calls for the k-th poll, under number start + k |
| Dispatch.PollCallsSendPolls | kwestyon.py:53-77 | the polls sent by the loop are exactly the given polls, in order |
| Dispatch.SendPolls | kwestyon.py:53-77 | six calls per question, and the polls sent are as many as the questions, the k-th built from the k-th question |
| Dispatch.PollCallsNumbering | kwestyon.py:53-68 | block k announces number start + k, pins it, and sends the k-th poll |
| Dispatch.SendPollsNumbering | kwestyon.py:53-68 | question k (from 0) is announced as number k+1, that announcement is pinned, and then its poll is sent |
| Handlers.MentionInRawText | kwestyon.py:87-92 | a mention found in the lower-cased stripped text is found in the lower-cased raw text, and conversely for a username without edge whitespace |
| Handlers.Addressed | kwestyon.py:87-93 | an answered group message contains the mention in its lower-cased raw text; for a username without edge whitespace, a message is answered exactly when it is private or contains the mention |
| Handlers.AddressedIgnoresCase | kwestyon.py:90-93 | the mention test ignores the case of the text and of the username |
| Handlers.GeneratingNoticeReadsBack | kwestyon.py:96 | the notice is a Markdown reply made of the fixed head, the topic and a closing `*`, and the topic reads back out of it |
| Handlers.FirstRound | kwestyon.py:98 | a failed request for the question prompt fails the round; with a decoder that rejects bare text, a quiz comes only from a reply with a bracketed span |
| Handlers.SecondRound | kwestyon.py:103 | the same for the explanation prompt built from the serialised first quiz |
| Handlers.HandleTopic | kwestyon.py:85-110 | a group message without the mention in its raw text gets no reply and keeps the state; any addressed message gets the generating notice first and ends the conversation |
| Handlers.FirstRoundFailure | kwestyon.py:98-101 | a failed or empty first round replies the notice and the generation failure, and sends no polls |
| Handlers.SecondRoundFailure | kwestyon.py:103-106 | a failed or empty second round replies the notice and the explanation failure, and sends no polls |
| Handlers.QuizDispatched | kwestyon.py:108-110 | after two successful rounds, the polls sent are those of the explained quiz, in order |
| Handlers.QuizCompletes | kwestyon.py:108-110 | after two successful rounds, the last reply is the completion notice |
| Handlers.PollsSentIff | kwestyon.py:90-110 | polls are sent if and only if the message is addressed to the bot and both rounds succeed |
| Handlers.Fallback | kwestyon.py:118-127 | a private message gets the `/start` hint; a group message without the mention in its raw text gets nothing; for a username without edge whitespace a message with the mention gets the hint |
| Handlers.SameGate | kwestyon.py:120-125 | the fallback stays silent on exactly the messages that the topic handler ignores |
| Handlers.FixedEnvOutcome | kwestyon.py:96-110 | for a private message, with a model that always returns the same non-empty quiz, the outcome is the notice, that quiz's calls and the completion notice |
| Handlers.TwoQuestionCalls | kwestyon.py:53-77 | for two questions answered `b` and `d`, the calls between the notice and the completion reply announce 1 and 2 and mark options 1 and 3 correct |
| Handlers.TwoQuestionScenario | kwestyon.py:53-110 | with two questions answered `b` and `d`, there are fourteen calls, numbered 1 and 2, with polls marking options 1 and 3 correct |

## Left out

- The HTTP request to Gemini and the unwrapping of the response envelope (kwestyon.py:39-44) are the `generate` parameter. `generate` is a function of the prompt, so the model says nothing about two identical prompts getting different replies. Here the two prompts always differ in their fixed text.
- `json.loads` and `json.dumps` are the `parse` and `dumps` parameters. The only property assumed of `parse` is that it rejects the empty text and the lone `]`.
- `telegram.helpers.escape_markdown` is library code and is the `escape` parameter, about which nothing is assumed. The `*` wrapping around its result (kwestyon.py:67) is the source's own and is modelled by `Dispatch.Bold`.
- The `print` of the error in `ask_gemini` (kwestyon.py:49) is logging and is not modelled.
- The poll's fixed arguments are not modelled: `type="quiz"`, `is_anonymous=False`, and `disable_notification=True` on the pin. Neither are the chat ids or message ids. The calls to Telegram and `asyncio.sleep` are recorded as `Action` values. The model never performs them, and an exception raised by one of them is not modelled.
- The `start` and `cancel` handlers, the `ConversationHandler` routing, the environment configuration and the main block (kwestyon.py:13-19, 80-82, 113-115, 130-143) are glue around the rules modelled here. `Outcome.next` records only what `handle_topic` returns: `None` for staying, `Some(End)` for ending.
- Channel posts and edited messages are not modelled, and `ChatType` has no channel case. Telegram delivers them in other fields of the update, so `update.message` is `None` and both handlers raise on `message.text` (kwestyon.py:86-87, 119-120) before any rule modelled here applies.
- Whitespace and case are handled for ASCII only: `strip` drops space, `\t`..`\r` and U+001C..U+001F, and `upper` and `lower` map only `a`..`z` and `A`..`Z`. Python's Unicode-aware whitespace and case mapping of other characters is not modelled.
- Questions are `map<string, string>`, so JSON values that are not strings, and array elements that are not objects, are not modelled. In the source an element that is not an object raises in `q.get` (kwestyon.py:55), a non-string `answer` raises in `.strip()` (kwestyon.py:58), and a non-string `question` raises in `escape_markdown` (kwestyon.py:67). Non-string option and explanation values are passed to `send_poll` unchanged.
- Dispatch.LetterToIndex compares the letter character by character rather than looking it up in a map. Dispatch.LetterToIndexIsTableLookup proves that it agrees with the source's four-entry table.
- The topic text passed to the prompt and to the notice is the whole stripped message. In a group the `@<username>` mention is not removed from it.
