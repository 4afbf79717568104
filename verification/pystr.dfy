/** ASCII models of the Python `str` operations the bot relies on:
    `strip`, `upper`, `lower`, `find`, `rfind`, slicing, `in` and `str(int)`. */
module PyStr {

  // ---------------------------------------------------------------- whitespace

  /** Python's `str.isspace` on ASCII: space, tab, newline, vertical tab,
      form feed, carriage return and the separators U+001C..U+001F. */
  predicate IsSpace(c: char) {
    c == ' ' || ('\t' <= c <= '\r') || ('\U{1C}' <= c <= '\U{1F}')
  }

  predicate AllSpace(s: string) {
    forall i :: 0 <= i < |s| ==> IsSpace(s[i])
  }

  /** Neither end of `s` is whitespace (vacuously true of the empty string). */
  predicate NoEdgeSpace(s: string) {
    |s| == 0 || (!IsSpace(s[0]) && !IsSpace(s[|s| - 1]))
  }

  /** `s.lstrip()`: what is left after dropping leading whitespace. */
  function TrimLeft(s: string): (r: string)
    ensures |r| <= |s|
    ensures |r| == 0 || !IsSpace(r[0])
  {
    if |s| > 0 && IsSpace(s[0]) then TrimLeft(s[1..]) else s
  }

  /** `lstrip` removes a whitespace prefix and keeps the rest as it is. */
  lemma {:induction false} TrimLeftDrops(s: string)
    ensures TrimLeft(s) == s[|s| - |TrimLeft(s)|..]
    ensures AllSpace(s[..|s| - |TrimLeft(s)|])
    decreases |s|
  {
    if |s| > 0 && IsSpace(s[0]) {
      TrimLeftDrops(s[1..]);
      var k := |s| - |TrimLeft(s)|;
      assert s[1..][..k - 1] == s[1..k];
    }
  }

  /** `s.rstrip()`: what is left after dropping trailing whitespace. */
  function TrimRight(s: string): (r: string)
    ensures |r| <= |s|
    ensures |r| == 0 || !IsSpace(r[|r| - 1])
  {
    if |s| > 0 && IsSpace(s[|s| - 1]) then TrimRight(s[..|s| - 1]) else s
  }

  /** `rstrip` removes a whitespace suffix and keeps the rest as it is. */
  lemma {:induction false} TrimRightDrops(s: string)
    ensures TrimRight(s) == s[..|TrimRight(s)|]
    ensures AllSpace(s[|TrimRight(s)|..])
    decreases |s|
  {
    if |s| > 0 && IsSpace(s[|s| - 1]) {
      var t := s[..|s| - 1];
      TrimRightDrops(t);
      var k := |TrimRight(s)|;
      assert t[k..] + [s[|s| - 1]] == s[k..];
    }
  }

  /** `r` sits at offset `i` of `s` with only whitespace before and after it. */
  predicate PaddedAt(s: string, r: string, i: int) {
    0 <= i <= |s| - |r| && s[i..i + |r|] == r && AllSpace(s[..i]) && AllSpace(s[i + |r|..])
  }

  /** `s.strip()`: no whitespace is left at either end. */
  function Strip(s: string): (r: string)
    ensures NoEdgeSpace(r)
  {
    TrimBothEdges(s);
    TrimRight(TrimLeft(s))
  }

  lemma TrimBothEdges(s: string)
    ensures NoEdgeSpace(TrimRight(TrimLeft(s)))
  {
    var t := TrimLeft(s);
    var r := TrimRight(t);
    TrimRightDrops(t);
    if |r| > 0 {
      assert r[0] == t[0];
    }
  }

  lemma TrimBothInfix(s: string)
    ensures s[|s| - |TrimLeft(s)|..|s| - |TrimLeft(s)| + |TrimRight(TrimLeft(s))|] == TrimRight(TrimLeft(s))
  {
    var t := TrimLeft(s);
    TrimLeftDrops(s);
    TrimRightDrops(t);
    assert t == s[|s| - |t|..];
  }

  lemma TrimBothTail(s: string)
    ensures AllSpace(s[|s| - |TrimLeft(s)| + |TrimRight(TrimLeft(s))|..])
  {
    var t := TrimLeft(s);
    var r := TrimRight(t);
    TrimLeftDrops(s);
    TrimRightDrops(t);
    assert s[|s| - |t| + |r|..] == t[|r|..];
  }

  lemma TrimBothPadded(s: string)
    ensures PaddedAt(s, TrimRight(TrimLeft(s)), |s| - |TrimLeft(s)|)
  {
    TrimLeftDrops(s);
    TrimBothInfix(s);
    TrimBothTail(s);
  }

  lemma {:induction false} TrimLeftPadded(p: string, t: string)
    requires AllSpace(p)
    requires |t| == 0 || !IsSpace(t[0])
    ensures TrimLeft(p + t) == t
    decreases |p|
  {
    if |p| > 0 {
      assert (p + t)[1..] == p[1..] + t;
      TrimLeftPadded(p[1..], t);
    } else {
      assert p + t == t;
    }
  }

  lemma {:induction false} TrimRightPadded(t: string, q: string)
    requires AllSpace(q)
    requires |t| == 0 || !IsSpace(t[|t| - 1])
    ensures TrimRight(t + q) == t
    decreases |q|
  {
    if |q| > 0 {
      assert (t + q)[..|t + q| - 1] == t + q[..|q| - 1];
      TrimRightPadded(t, q[..|q| - 1]);
    } else {
      assert t + q == t;
    }
  }

  /** `strip` removes exactly the whitespace padding around a core that has
      none at its ends; with `Strip`'s own contract this characterises it. */
  lemma StripPadded(p: string, m: string, q: string)
    requires AllSpace(p) && AllSpace(q) && NoEdgeSpace(m)
    ensures Strip(p + m + q) == m
  {
    if |m| > 0 {
      assert p + m + q == p + (m + q);
      TrimLeftPadded(p, m + q);
      TrimRightPadded(m, q);
    } else {
      assert p + m + q == (p + q) + [];
      assert AllSpace(p + q);
      TrimLeftPadded(p + q, []);
    }
  }

  /** Every string is its stripped form with whitespace padding around it. */
  lemma StripSplits(s: string) returns (p: string, q: string)
    ensures AllSpace(p) && AllSpace(q)
    ensures s == p + Strip(s) + q
  {
    var r := Strip(s);
    var i := |s| - |TrimLeft(s)|;
    TrimBothPadded(s);
    p, q := s[..i], s[i + |r|..];
    SplitThree(s, i, i + |r|);
  }

  lemma SplitThree(s: string, i: int, j: int)
    requires 0 <= i <= j <= |s|
    ensures s == s[..i] + s[i..j] + s[j..]
  {
  }

  // ---------------------------------------------------------------- case

  function UpperChar(c: char): char {
    if 'a' <= c <= 'z' then (c as int - 32) as char else c
  }

  function LowerChar(c: char): char {
    if 'A' <= c <= 'Z' then (c as int + 32) as char else c
  }

  /** `s.upper()` on ASCII letters; other characters are left as they are. */
  function Upper(s: string): (r: string)
    ensures |r| == |s|
    ensures forall i {:trigger r[i]} :: 0 <= i < |s| ==> r[i] == UpperChar(s[i])
  {
    if |s| == 0 then [] else [UpperChar(s[0])] + Upper(s[1..])
  }

  /** `s.lower()` on ASCII letters; other characters are left as they are. */
  function Lower(s: string): (r: string)
    ensures |r| == |s|
    ensures forall i {:trigger r[i]} :: 0 <= i < |s| ==> r[i] == LowerChar(s[i])
  {
    if |s| == 0 then [] else [LowerChar(s[0])] + Lower(s[1..])
  }

  /** Lower-casing does not move the whitespace, so it commutes with `strip`. */
  lemma LowerStripCommute(s: string)
    ensures Lower(Strip(s)) == Strip(Lower(s))
  {
    var p, q := StripSplits(s);
    var m := Strip(s);
    LowerConcat(p, m, q);
    LowerKeepsSpace(p);
    LowerKeepsSpace(q);
    LowerKeepsEdges(m);
    StripPadded(Lower(p), Lower(m), Lower(q));
  }

  lemma LowerConcat(a: string, b: string, c: string)
    ensures Lower(a + b + c) == Lower(a) + Lower(b) + Lower(c)
  {
  }

  lemma LowerKeepsSpace(s: string)
    requires AllSpace(s)
    ensures AllSpace(Lower(s))
  {
  }

  lemma LowerKeepsEdges(s: string)
    requires NoEdgeSpace(s)
    ensures NoEdgeSpace(Lower(s))
  {
  }

  // ---------------------------------------------------------------- search

  predicate StartsWith(s: string, prefix: string) {
    |prefix| <= |s| && s[..|prefix|] == prefix
  }

  /** `needle` occurs in `hay` starting at offset `i`. */
  predicate OccursAt(hay: string, needle: string, i: int) {
    0 <= i <= |hay| - |needle| && hay[i..i + |needle|] == needle
  }

  /** Python's `needle in hay` on strings. */
  predicate Contains(hay: string, needle: string)
    decreases |hay|
  {
    StartsWith(hay, needle) || (|hay| > 0 && Contains(hay[1..], needle))
  }

  /** `needle in hay` holds exactly when `needle` occurs at some offset. */
  lemma {:induction false} ContainsIffOccurs(hay: string, needle: string)
    ensures Contains(hay, needle) <==> exists i :: OccursAt(hay, needle, i)
    decreases |hay|
  {
    if Contains(hay, needle) {
      if StartsWith(hay, needle) {
        assert OccursAt(hay, needle, 0);
      } else {
        ContainsIffOccurs(hay[1..], needle);
        var i :| OccursAt(hay[1..], needle, i);
        assert hay[i + 1..i + 1 + |needle|] == hay[1..][i..i + |needle|];
        assert OccursAt(hay, needle, i + 1);
      }
    }
    if exists i :: OccursAt(hay, needle, i) {
      var i :| OccursAt(hay, needle, i);
      if i == 0 {
        assert StartsWith(hay, needle);
      } else {
        assert hay[1..][i - 1..i - 1 + |needle|] == hay[i..i + |needle|];
        assert OccursAt(hay[1..], needle, i - 1);
        ContainsIffOccurs(hay[1..], needle);
      }
    }
  }

  /** Whatever is found in a part of a string is found in the whole of it. */
  lemma ContainsInfix(p: string, m: string, q: string, needle: string)
    ensures Contains(m, needle) ==> Contains(p + m + q, needle)
  {
    if Contains(m, needle) {
      var h := p + m + q;
      ContainsIffOccurs(m, needle);
      var i :| OccursAt(m, needle, i);
      assert h[|p| + i..|p| + i + |needle|] == m[i..i + |needle|];
      assert OccursAt(h, needle, |p| + i);
      ContainsIffOccurs(h, needle);
    }
  }

  /** A needle with no whitespace at its ends, found in a whitespace-padded
      string, is found in the unpadded core: padding never matters to `in`. */
  lemma ContainsPadded(p: string, m: string, q: string, needle: string)
    requires AllSpace(p) && AllSpace(q)
    requires 0 < |needle| && NoEdgeSpace(needle)
    ensures Contains(p + m + q, needle) <==> Contains(m, needle)
  {
    var h := p + m + q;
    ContainsIffOccurs(h, needle);
    ContainsIffOccurs(m, needle);
    if Contains(m, needle) {
      var i :| OccursAt(m, needle, i);
      assert h[|p| + i..|p| + i + |needle|] == m[i..i + |needle|];
      assert OccursAt(h, needle, |p| + i);
    }
    if Contains(h, needle) {
      var i :| OccursAt(h, needle, i);
      assert h[i] == needle[0];
      assert h[i + |needle| - 1] == needle[|needle| - 1];
      assert |p| <= i && i + |needle| <= |p| + |m|;
      assert m[i - |p|..i - |p| + |needle|] == h[i..i + |needle|];
      assert OccursAt(m, needle, i - |p|);
    }
  }

  /** `s.find(c)`: the first index of `c`, or -1 when `c` does not occur. */
  function Find(s: string, c: char): (r: int)
    ensures -1 <= r < |s|
    ensures r == -1 <==> c !in s
    ensures 0 <= r ==> s[r] == c
    ensures forall j :: 0 <= j < r ==> s[j] != c
  {
    if |s| == 0 then -1
    else if s[0] == c then 0
    else
      var k := Find(s[1..], c);
      if k == -1 then -1 else k + 1
  }

  /** `s.rfind(c)`: the last index of `c`, or -1 when `c` does not occur. */
  function RFind(s: string, c: char): (r: int)
    ensures -1 <= r < |s|
    ensures r == -1 <==> c !in s
    ensures 0 <= r ==> s[r] == c && c !in s[r + 1..]
  {
    if |s| == 0 then -1
    else if s[|s| - 1] == c then |s| - 1
    else
      var k := RFind(s[..|s| - 1], c);
      assert k >= 0 ==> s[k + 1..] == s[..|s| - 1][k + 1..] + [s[|s| - 1]];
      k
  }

  /** How Python reads one bound of `s[start:stop]`: a negative bound counts
      from the end, and the result is clamped into 0..n. */
  function SliceBound(i: int, n: nat): (r: nat)
    ensures r <= n
    ensures 0 <= i <= n ==> r == i
    ensures i < 0 && 0 <= i + n ==> r == i + n
    ensures i + n < 0 ==> r == 0
    ensures n < i ==> r == n
  {
    if i < 0 then (if i + n < 0 then 0 else i + n)
    else if i > n then n
    else i
  }

  /** Python's `s[start:stop]`; an empty string when the bounds cross. */
  function PySlice(s: string, start: int, stop: int): (r: string)
    ensures SliceBound(start, |s|) < SliceBound(stop, |s|) ==>
      r == s[SliceBound(start, |s|)..SliceBound(stop, |s|)]
    ensures SliceBound(stop, |s|) <= SliceBound(start, |s|) ==> r == []
  {
    var a := SliceBound(start, |s|);
    var b := SliceBound(stop, |s|);
    if a < b then s[a..b] else []
  }

  /** A negative bound `-k` with `k <= |s|` names the same position as
      `|s| - k`, for either end of the slice. */
  lemma PySliceNegative(s: string, k: int, j: int)
    requires 0 < k <= |s|
    ensures PySlice(s, -k, j) == PySlice(s, |s| - k, j)
    ensures PySlice(s, j, -k) == PySlice(s, j, |s| - k)
  {
  }

  /** Bounds past either end are clamped: slicing beyond `|s|` or below
      `-|s|` is slicing at the end or the start. */
  lemma PySliceClamped(s: string, i: int, j: int)
    ensures j > |s| ==> PySlice(s, i, j) == PySlice(s, i, |s|)
    ensures i < -|s| ==> PySlice(s, i, j) == PySlice(s, 0, j)
  {
  }

  /** Adjacent slices join: `s[i:j] + s[j:k] == s[i:k]` for in-range bounds
      in order, and `s[0:|s|]` is `s` itself. */
  lemma PySliceConcat(s: string, i: int, j: int, k: int)
    requires 0 <= i <= j <= k <= |s|
    ensures PySlice(s, i, j) + PySlice(s, j, k) == PySlice(s, i, k)
    ensures PySlice(s, 0, |s|) == s
  {
    if i == j {
      assert PySlice(s, i, j) == [];
    } else if j == k {
      assert PySlice(s, j, k) == [];
    } else {
      assert s[i..j] + s[j..k] == s[i..k];
    }
  }

  // ---------------------------------------------------------------- str(int)

  function DigitChar(d: nat): (c: char)
    requires d < 10
    ensures '0' <= c <= '9'
  {
    ('0' as int + d) as char
  }

  predicate AllDigits(s: string) {
    forall i :: 0 <= i < |s| ==> '0' <= s[i] <= '9'
  }

  /** `str(n)` for a natural number: its decimal digits, without a leading zero. */
  function DecimalString(n: nat): (r: string)
    ensures |r| >= 1 && AllDigits(r)
    ensures r[0] == '0' <==> n == 0
  {
    if n < 10 then [DigitChar(n)] else DecimalString(n / 10) + [DigitChar(n % 10)]
  }

  /** The number a string of decimal digits denotes (`int(s)`). */
  function DecimalValue(s: string): nat
    requires AllDigits(s)
  {
    if |s| == 0 then 0 else DecimalValue(s[..|s| - 1]) * 10 + (s[|s| - 1] as int - '0' as int)
  }

  /** Reading back the digits `str(n)` prints gives `n` again. */
  lemma {:induction false} DecimalRoundTrip(n: nat)
    ensures DecimalValue(DecimalString(n)) == n
  {
    if n >= 10 {
      var r := DecimalString(n);
      assert r[..|r| - 1] == DecimalString(n / 10);
      DecimalRoundTrip(n / 10);
    }
  }

  lemma DecimalStringInjective(m: nat, n: nat)
    ensures DecimalString(m) == DecimalString(n) ==> m == n
  {
    DecimalRoundTrip(m);
    DecimalRoundTrip(n);
  }
}
