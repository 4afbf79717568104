/** A concrete reply whose cut is not the array it carries. */
module GeminiExamples {
  import opened PyStr
  import opened Gemini

  /** A reference marker in the prose is enough: the reply `see [1]: [x]`
      is cut to `[1]: [x]`, not to the array `[x]`. */
  lemma ReferenceMarkerWidensCut()
    ensures ArrayText("see [1]: [x]") == "[1]: [x]"
  {
    var prose, body := "see [1]: ", "[x]";
    assert prose + body + "" == "see [1]: [x]";
    assert (prose + body)[4..] == "[1]: [x]";
    assert Find(prose, '[') == 4;
    PrecedingBracketWidensCut(prose, body, "");
  }
}
