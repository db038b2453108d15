// The java.lang.String operations the type-name parsers rely on:
// indexOf, endsWith, trim and Integer.parseInt, over Dafny strings
// (Unicode scalar values); surrogate pairs are not modelled.

module Text {
  import opened Bytes

  /** `String.indexOf(char)`: the first index holding `c`, or -1. */
  function IndexOf(s: string, c: char): (r: int)
    ensures -1 <= r < |s|
    ensures r == -1 <==> c !in s
    ensures r >= 0 ==> s[r] == c && c !in s[..r]
  {
    if |s| == 0 then -1
    else if s[0] == c then 0
    else
      var k := IndexOf(s[1..], c);
      assert s[1..][..(if k >= 0 then k else 0)] == s[1..(if k >= 0 then k + 1 else 1)];
      assert k >= 0 ==> s[..k + 1] == [s[0]] + s[1..][..k];
      if k == -1 then -1 else k + 1
  }

  predicate OccursAt(s: string, t: string, i: int)
  {
    0 <= i && i + |t| <= |s| && s[i..i + |t|] == t
  }

  /** `String.indexOf(String)` searching from `from`: the first index at or after `from` where `t` occurs, or -1. */
  function IndexOfTextFrom(s: string, t: string, from: nat): (r: int)
    requires from <= |s|
    ensures r == -1 || (from <= r && OccursAt(s, t, r))
    ensures r == -1 ==> forall j :: from <= j <= |s| ==> !OccursAt(s, t, j)
    ensures r >= 0 ==> forall j :: from <= j < r ==> !OccursAt(s, t, j)
    decreases |s| - from
  {
    if OccursAt(s, t, from) then from
    else if from == |s| then -1
    else IndexOfTextFrom(s, t, from + 1)
  }

  /** `String.indexOf(String)`: the first index where `t` occurs in `s`, or -1. */
  function IndexOfText(s: string, t: string): (r: int)
    ensures r == -1 <==> forall j :: 0 <= j <= |s| ==> !OccursAt(s, t, j)
    ensures r >= 0 ==> OccursAt(s, t, r) && forall j :: 0 <= j < r ==> !OccursAt(s, t, j)
  {
    IndexOfTextFrom(s, t, 0)
  }

  /** `String.endsWith`. */
  predicate EndsWith(s: string, suffix: string)
  {
    |suffix| <= |s| && s[|s| - |suffix|..] == suffix
  }

  /** `String.trim` removes every leading and trailing code unit at or below U+0020. */
  predicate IsTrimmed(c: char)
  {
    c <= ' '
  }

  function TrimStart(s: string): (r: string)
    ensures |r| <= |s| && r == s[|s| - |r|..]
    ensures forall i :: 0 <= i < |s| - |r| ==> IsTrimmed(s[i])
    ensures r == [] || !IsTrimmed(r[0])
  {
    if |s| > 0 && IsTrimmed(s[0]) then TrimStart(s[1..]) else s
  }

  function TrimEnd(s: string): (r: string)
    ensures |r| <= |s| && r == s[..|r|]
    ensures forall i :: |r| <= i < |s| ==> IsTrimmed(s[i])
    ensures r == [] || !IsTrimmed(r[|r| - 1])
  {
    if |s| > 0 && IsTrimmed(s[|s| - 1]) then TrimEnd(s[..|s| - 1]) else s
  }

  /** `String.trim`. */
  function Trim(s: string): (r: string)
  {
    TrimEnd(TrimStart(s))
  }

  /** A string that neither starts nor ends with a trimmable code unit is its own trim. */
  lemma TrimUntrimmed(s: string)
    requires s == [] || (!IsTrimmed(s[0]) && !IsTrimmed(s[|s| - 1]))
    ensures Trim(s) == s
  {
  }

  /** Trimming removes a trimmable prefix and suffix and nothing else. */
  lemma TrimIsInfix(s: string)
    ensures exists a, b :: (0 <= a <= b <= |s| && Trim(s) == s[a..b]
                            && (forall i :: 0 <= i < a ==> IsTrimmed(s[i]))
                            && (forall i :: b <= i < |s| ==> IsTrimmed(s[i])))
  {
    TrimSlice(s);
    var a := |s| - |TrimStart(s)|;
    var b := a + |Trim(s)|;
    assert Trim(s) == s[a..b];
  }

  /** Where the trimmed string lies in the original: after the trimmable prefix `TrimStart` drops. */
  lemma TrimSlice(s: string)
    ensures var a := |s| - |TrimStart(s)|;
            var b := a + |Trim(s)|;
            && 0 <= a <= b <= |s| && Trim(s) == s[a..b]
            && (forall i :: 0 <= i < a ==> IsTrimmed(s[i]))
            && (forall i :: b <= i < |s| ==> IsTrimmed(s[i]))
  {
    TrimSliceBounds(s);
    TrimSuffixTrimmed(s);
  }

  /** The trimmed string is the slice of the original after the prefix `TrimStart` drops. */
  lemma TrimSliceBounds(s: string)
    ensures var a := |s| - |TrimStart(s)|;
            0 <= a <= a + |Trim(s)| <= |s| && Trim(s) == s[a..a + |Trim(s)|]
  {
    var t := TrimStart(s);
    var r := TrimEnd(t);
    var a := |s| - |t|;
    assert t == s[a..] && r == t[..|r|];
    SliceOfSlice(s, a, |s|, 0, |r|);
    assert s[a..|s|] == s[a..];
  }

  /** Every code unit after the trimmed slice is trimmable. */
  lemma TrimSuffixTrimmed(s: string)
    ensures forall i :: |s| - |TrimStart(s)| + |Trim(s)| <= i < |s| ==> IsTrimmed(s[i])
  {
    var t := TrimStart(s);
    var r := TrimEnd(t);
    var a := |s| - |t|;
    forall i | a + |r| <= i < |s|
      ensures IsTrimmed(s[i])
    {
      assert t == s[a..];
      assert s[i] == t[i - a];
    }
  }

  predicate IsDigit(c: char)
  {
    '0' <= c <= '9'
  }

  predicate AllDigits(s: string)
  {
    forall i :: 0 <= i < |s| ==> IsDigit(s[i])
  }

  /** The value of a run of decimal digits, most significant first. */
  function DigitsValue(s: string): (r: nat)
    requires AllDigits(s)
  {
    if |s| == 0 then 0 else 10 * DigitsValue(s[..|s| - 1]) + (s[|s| - 1] as int - '0' as int)
  }

  /** The decimal rendering of `n`, as `Integer.toString` gives it. */
  function Decimal(n: nat): (r: string)
    ensures |r| >= 1 && AllDigits(r)
  {
    var last := [('0' as int + n % 10) as char];
    if n < 10 then last else Decimal(n / 10) + last
  }

  lemma {:induction false} DigitsValueOfDecimal(n: nat)
    ensures DigitsValue(Decimal(n)) == n
  {
    if n >= 10 {
      DigitsValueOfDecimal(n / 10);
      var d := Decimal(n);
      assert d[..|d| - 1] == Decimal(n / 10);
    }
  }

  /**
   * `Integer.parseInt(s)` for ASCII digits: an optional sign, then at
   * least one digit; anything else, or a value outside the 32-bit range,
   * raises NumberFormatException.
   */
  function ParseInt(s: string): (r: Result<int>)
    ensures r.Ok? ==> INT_MIN <= r.value <= INT_MAX
    ensures r.Ok? ==> |s| >= 1 && (AllDigits(s) || ((s[0] == '-' || s[0] == '+') && |s| >= 2 && AllDigits(s[1..])))
    ensures r.Ok? && AllDigits(s) ==> r.value == DigitsValue(s)
  {
    if |s| == 0 then Err("NumberFormatException")
    else if s[0] == '-' || s[0] == '+' then
      if |s| == 1 || !AllDigits(s[1..]) then Err("NumberFormatException")
      else
        var magnitude: int := DigitsValue(s[1..]);
        var v := if s[0] == '-' then -magnitude else magnitude;
        if INT_MIN <= v <= INT_MAX then Ok(v) else Err("NumberFormatException")
    else if !AllDigits(s) then Err("NumberFormatException")
    else if DigitsValue(s) <= INT_MAX then Ok(DigitsValue(s))
    else Err("NumberFormatException")
  }

  /** Parsing the decimal text of an int gives the int back. */
  lemma ParseIntOfDecimal(n: nat)
    requires n <= INT_MAX
    ensures ParseInt(Decimal(n)) == Ok(n)
  {
    DigitsValueOfDecimal(n);
  }
}
