/** `ask_gemini`: pick the JSON array out of the model's free-text reply and
    parse it. The HTTP exchange and `json.loads` are outside the model and
    enter as the two functions of a `Backend`. */
module Gemini {
  import opened Wrappers
  import opened PyStr
  import opened Domain

  /** `generate` stands for the POST, `raise_for_status` and the lookup of
      `candidates[0].content.parts[0].text`: the reply text, or `None` when
      any of them raises. `parse` stands for `json.loads`: the quiz, or `None`
      when it raises. */
  datatype Backend = Backend(generate: string -> Option<string>, parse: string -> Option<Quiz>)

  /** `reply[reply.find("["):reply.rfind("]") + 1]`, read with Python's slice
      rules. Whatever the reply, the result is empty, a lone `]`, or runs
      from a `[` to a `]`. */
  function ArrayText(reply: string): (r: string)
    ensures r == [] || r == "]" || (2 <= |r| && r[0] == '[' && r[|r| - 1] == ']')
  {
    var start := Find(reply, '[');
    var end := RFind(reply, ']') + 1;
    if start == -1 then
      SliceWithoutOpen(reply, end);
      PySlice(reply, start, end)
    else
      SliceFromOpen(reply, start, end);
      PySlice(reply, start, end)
  }

  /** `start == -1` reads as the last index, so at most the final character
      survives, and only when `end` reaches the end of the reply. */
  lemma SliceWithoutOpen(reply: string, end: int)
    requires 0 <= end <= |reply|
    requires end == |reply| && 0 < |reply| ==> reply[|reply| - 1] == ']'
    ensures PySlice(reply, -1, end) == [] || PySlice(reply, -1, end) == "]"
  {
    if 0 < |reply| && end == |reply| {
      assert PySlice(reply, -1, end) == [reply[|reply| - 1]];
    }
  }

  lemma SliceFromOpen(reply: string, start: int, end: int)
    requires start == Find(reply, '[') && 0 <= start
    requires end == RFind(reply, ']') + 1
    ensures var r := PySlice(reply, start, end);
      r == [] || (2 <= |r| && r[0] == '[' && r[|r| - 1] == ']')
  {
    if start < end {
      var r := reply[start..end];
      assert PySlice(reply, start, end) == r;
      assert r[0] == '[' && r[|r| - 1] == ']';
    }
  }

  /** The reply's first `[` comes before its last `]`. */
  predicate HasSpan(reply: string) {
    '[' in reply && ']' in reply && Find(reply, '[') < RFind(reply, ']')
  }

  /** With a span, the slice is that whole span, both brackets included, so
      any prose before the first `[` and after the last `]` is dropped. */
  lemma SpanIsExtracted(reply: string)
    requires HasSpan(reply)
    ensures ArrayText(reply) == reply[Find(reply, '[')..RFind(reply, ']') + 1]
    ensures ArrayText(reply)[0] == '['
  {
  }

  /** Without a span, the slice is empty or a lone `]`. */
  lemma NoSpanNoArray(reply: string)
    requires !HasSpan(reply)
    ensures ArrayText(reply) == [] || ArrayText(reply) == "]"
  {
    var start := Find(reply, '[');
    var end := RFind(reply, ']') + 1;
    if 0 <= start && 0 < end {
      assert reply[start] != reply[end - 1];
      assert end <= start;
    }
  }

  /** A reply yields something that can start an array exactly when it has a span. */
  lemma ArrayTextSpan(reply: string)
    ensures (|ArrayText(reply)| > 0 && ArrayText(reply)[0] == '[') <==> HasSpan(reply)
  {
    if HasSpan(reply) {
      SpanIsExtracted(reply);
    } else {
      NoSpanNoArray(reply);
    }
  }

  /** With no `]`, `end` is 0 and the slice is empty. */
  lemma ArrayTextNoClose(reply: string)
    requires ']' !in reply
    ensures ArrayText(reply) == []
  {
  }

  /** With no `[`, `start` is -1, which Python reads as the last index: the
      slice is the final `]` when the reply ends with one, and empty otherwise. */
  lemma ArrayTextNoOpen(reply: string)
    requires '[' !in reply
    ensures ArrayText(reply) == (if 0 < |reply| && reply[|reply| - 1] == ']' then "]" else [])
  {
    var end := RFind(reply, ']') + 1;
    if 0 < |reply| && reply[|reply| - 1] == ']' {
      assert end == |reply|;
      assert ArrayText(reply) == reply[|reply| - 1..|reply|];
    } else if 0 < |reply| {
      assert end < |reply|;
    }
  }

  lemma FindAtBoundary(prose: string, rest: string, c: char)
    requires c !in prose
    requires 0 < |rest| && rest[0] == c
    ensures Find(prose + rest, c) == |prose|
  {
    var s := prose + rest;
    assert s[|prose|] == c;
  }

  lemma RFindAtBoundary(front: string, rest: string, c: char)
    requires c !in rest
    requires 0 < |front| && front[|front| - 1] == c
    ensures RFind(front + rest, c) == |front| - 1
  {
    var s := front + rest;
    assert s[|front| - 1] == c;
  }

  /** A JSON array embedded in prose is extracted exactly, whatever text
      surrounds it, provided the text before it holds no `[` and the text
      after it no `]`. */
  lemma ArrayTextEmbedded(prose: string, body: string, rest: string)
    requires '[' !in prose && ']' !in rest
    requires 2 <= |body| && body[0] == '[' && body[|body| - 1] == ']'
    ensures ArrayText(prose + body + rest) == body
  {
    var reply := prose + body + rest;
    assert reply == prose + (body + rest);
    FindAtBoundary(prose, body + rest, '[');
    assert reply == (prose + body) + rest;
    RFindAtBoundary(prose + body, rest, ']');
    assert reply[|prose|..|prose| + |body|] == body;
  }

  lemma FindInPrefix(front: string, rest: string, c: char)
    requires c in front
    ensures Find(front + rest, c) == Find(front, c)
  {
    var s := front + rest;
    assert s[Find(front, c)] == c;
    assert forall j :: 0 <= j < |front| ==> s[j] == front[j];
  }

  /** The cut is not "the array, whatever text surrounds it": a `[` in the
      prose before the array moves the start of the cut into that prose, so
      the cut is strictly longer than the array and keeps the prose after
      that `[`. */
  lemma PrecedingBracketWidensCut(prose: string, body: string, rest: string)
    requires '[' in prose && ']' !in rest
    requires 2 <= |body| && body[0] == '[' && body[|body| - 1] == ']'
    ensures ArrayText(prose + body + rest) == (prose + body)[Find(prose, '[')..]
    ensures |ArrayText(prose + body + rest)| > |body|
  {
    var reply := prose + body + rest;
    assert reply == prose + (body + rest);
    FindInPrefix(prose, body + rest, '[');
    assert reply == (prose + body) + rest;
    RFindAtBoundary(prose + body, rest, ']');
    assert reply[Find(prose, '[')..|prose| + |body|] == (prose + body)[Find(prose, '[')..];
  }

  /** What `json.loads` is known to do on the two degenerate slices: both
      raise. */
  predicate RejectsBareText(parse: string -> Option<Quiz>) {
    parse("") == None && parse("]") == None
  }

  /** `ask_gemini`: `None` when the call fails or the slice does not parse.
      A quiz comes back only from a successful call, and, with a decoder
      that rejects the degenerate slices, only from a reply holding a `[`
      before its last `]`. */
  function AskGemini(prompt: string, backend: Backend): (r: Option<Quiz>)
    ensures r.Some? ==> backend.generate(prompt).Some?
    ensures r.Some? && RejectsBareText(backend.parse) ==> HasSpan(backend.generate(prompt).value)
    ensures backend.generate(prompt).None? ==> r.None?
    ensures backend.generate(prompt).Some? ==> r == backend.parse(ArrayText(backend.generate(prompt).value))
  {
    match backend.generate(prompt)
    case None => None
    case Some(reply) =>
      if HasSpan(reply) then backend.parse(ArrayText(reply))
      else
        NoSpanNoArray(reply);
        backend.parse(ArrayText(reply))
  }

  /** A reply without a `[` before its last `]` makes `ask_gemini` return `None`. */
  lemma UnbracketedReplyFails(prompt: string, backend: Backend, reply: string)
    requires RejectsBareText(backend.parse)
    requires backend.generate(prompt) == Some(reply)
    requires !HasSpan(reply)
    ensures AskGemini(prompt, backend) == None
  {
    NoSpanNoArray(reply);
  }

  /** A reply that wraps an array in prose is parsed as just that array. */
  lemma EmbeddedArrayIsParsed(prompt: string, backend: Backend, prose: string, body: string, rest: string)
    requires backend.generate(prompt) == Some(prose + body + rest)
    requires '[' !in prose && ']' !in rest
    requires 2 <= |body| && body[0] == '[' && body[|body| - 1] == ']'
    ensures AskGemini(prompt, backend) == backend.parse(body)
  {
    ArrayTextEmbedded(prose, body, rest);
  }
}
