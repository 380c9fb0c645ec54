/**
 * Small building blocks shared by the whole model: an Option type for Java's
 * nullable references and the parts of java.lang.String / java.lang.Integer
 * that the application relies on (trim, blank checks, parseInt).
 */
module Base {

  /** A Java reference that may be null. */
  datatype Option<+T> = None | Some(value: T)

  /** Java `int`. */
  newtype Int32 = i: int | -0x8000_0000 <= i < 0x8000_0000

  /** `String.trim()` removes every leading and trailing char whose code is at most U+0020. */
  predicate IsTrimmed(c: char) {
    c <= ' '
  }

  /** The suffix of `s` that starts at its first char above U+0020. */
  function DropLeading(s: string): (r: string)
    ensures |r| <= |s| && r == s[|s| - |r|..]
    ensures forall i :: 0 <= i < |s| - |r| ==> IsTrimmed(s[i])
    ensures |r| > 0 ==> !IsTrimmed(r[0])
  {
    if |s| > 0 && IsTrimmed(s[0]) then DropLeading(s[1..]) else s
  }

  /** The prefix of `s` that ends at its last char above U+0020. */
  function DropTrailing(s: string): (r: string)
    ensures |r| <= |s| && r == s[..|r|]
    ensures forall i :: |r| <= i < |s| ==> IsTrimmed(s[i])
    ensures |r| > 0 ==> !IsTrimmed(r[|r| - 1])
  {
    if |s| > 0 && IsTrimmed(s[|s| - 1]) then DropTrailing(s[..|s| - 1]) else s
  }

  /** `String.trim()`. */
  function Trim(s: string): string {
    DropTrailing(DropLeading(s))
  }

  /** `s.trim().isEmpty()`. */
  predicate IsBlank(s: string) {
    |Trim(s)| == 0
  }

  /** A string trims to nothing exactly when every char in it is at most U+0020. */
  lemma {:induction false} BlankIffAllTrimmed(s: string)
    ensures IsBlank(s) <==> forall i :: 0 <= i < |s| ==> IsTrimmed(s[i])
  {
    var lead := DropLeading(s);
    assert |lead| > 0 ==> lead[0] == s[|s| - |lead|];
    if forall i :: 0 <= i < |s| ==> IsTrimmed(s[i]) {
      assert |lead| == 0;
    } else {
      var k :| 0 <= k < |s| && !IsTrimmed(s[k]);
      assert |lead| > 0;
      assert !IsTrimmed(lead[0]);
      assert |DropTrailing(lead)| > 0;
    }
  }

  /** Trimming keeps a string whose ends are already above U+0020. */
  lemma TrimKeepsTrimmed(s: string)
    requires |s| > 0 && !IsTrimmed(s[0]) && !IsTrimmed(s[|s| - 1])
    ensures Trim(s) == s
  {
  }

  // ---------------------------------------------------------------------------
  // Integer.parseInt (radix 10)

  predicate IsDigit(c: char) {
    '0' <= c <= '9'
  }

  predicate AllDigits(s: string) {
    forall i :: 0 <= i < |s| ==> IsDigit(s[i])
  }

  function DigitValue(c: char): nat
    requires IsDigit(c)
  {
    (c as int) - ('0' as int)
  }

  function DigitChar(d: nat): (c: char)
    requires d < 10
    ensures IsDigit(c) && DigitValue(c) == d
  {
    (('0' as int) + d) as char
  }

  /** The value of a run of decimal digits, most significant first. */
  function DigitsValue(s: string): nat
    requires AllDigits(s)
  {
    if |s| == 0 then 0 else DigitsValue(s[..|s| - 1]) * 10 + DigitValue(s[|s| - 1])
  }

  /** `Integer.toString(n)` for a non-negative `n`: the shortest decimal rendering. */
  function ShowNat(n: nat): (r: string)
    ensures |r| > 0 && AllDigits(r)
  {
    if n < 10 then [DigitChar(n)] else ShowNat(n / 10) + [DigitChar(n % 10)]
  }

  /** `Integer.toString(n)`. */
  function ShowInt(n: Int32): string {
    if n < 0 then "-" + ShowNat(-(n as int)) else ShowNat(n as int)
  }

  /**
   * `Integer.parseInt(s)`: an optional `+` or `-`, then at least one decimal
   * digit, with the value inside the `int` range; anything else throws
   * NumberFormatException, modelled as None.
   */
  function ParseInt(s: string): (r: Option<Int32>)
    ensures r.Some? ==> |s| > 0
    ensures r.Some? && AllDigits(s) ==> r.value as int == DigitsValue(s)
    ensures r.Some? && s[0] == '-' ==> AllDigits(s[1..]) && r.value as int == -(DigitsValue(s[1..]) as int)
    ensures r.Some? && s[0] == '+' ==> AllDigits(s[1..]) && r.value as int == DigitsValue(s[1..])
  {
    if |s| == 0 then None
    else
      var negative := s[0] == '-';
      var digits := if s[0] == '-' || s[0] == '+' then s[1..] else s;
      if |digits| == 0 || !AllDigits(digits) then None
      else
        var v: int := if negative then -(DigitsValue(digits) as int) else DigitsValue(digits);
        if -0x8000_0000 <= v < 0x8000_0000 then Some(v as Int32) else None
  }

  lemma {:induction false} DigitsValueOfShowNat(n: nat)
    ensures DigitsValue(ShowNat(n)) == n
  {
    if n >= 10 {
      var s := ShowNat(n);
      assert s[..|s| - 1] == ShowNat(n / 10);
      DigitsValueOfShowNat(n / 10);
    }
  }

  /** Rendering an int in decimal and parsing it back gives the same int. */
  lemma ParseShowRoundTrip(n: Int32)
    ensures ParseInt(ShowInt(n)) == Some(n)
  {
    if n < 0 {
      var m := -(n as int);
      DigitsValueOfShowNat(m);
      var s := ShowInt(n);
      assert s[1..] == ShowNat(m);
      assert s[0] == '-';
    } else {
      DigitsValueOfShowNat(n as int);
      var s := ShowNat(n as int);
      assert s[0] != '-' && s[0] != '+' by {
        assert IsDigit(s[0]);
      }
    }
  }
}
