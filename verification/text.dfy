/**
 * Text primitives the conversion engine relies on: decimal numerals, zero padding,
 * splitting on and joining with a separator, ASCII case folding for member-name
 * matching, and a first-match search.
 */
module Text {
  import opened Outcomes

  predicate IsDigit(c: char) {
    '0' <= c <= '9'
  }

  predicate AllDigits(s: string) {
    forall i :: 0 <= i < |s| ==> IsDigit(s[i])
  }

  function DigitChar(d: nat): char
    requires d < 10
  {
    ('0' as int + d) as char
  }

  function DigitValue(c: char): nat
    requires IsDigit(c)
  {
    c as int - '0' as int
  }

  function Pow10(k: nat): nat {
    if k == 0 then 1 else 10 * Pow10(k - 1)
  }

  /** The value of a string of decimal digits, most significant first. */
  function DigitsValue(s: string): nat
    requires AllDigits(s)
  {
    if |s| == 0 then 0 else 10 * DigitsValue(s[..|s| - 1]) + DigitValue(s[|s| - 1])
  }

  /** The shortest decimal numeral of `n`: no leading zero except for `0` itself. */
  function FormatNat(n: nat): (s: string)
    ensures 1 <= |s| && AllDigits(s)
    ensures s[0] == '0' <==> n == 0
    ensures DigitsValue(s) == n
  {
    if n < 10 then [DigitChar(n)]
    else
      var s := FormatNat(n / 10) + [DigitChar(n % 10)];
      assert s[..|s| - 1] == FormatNat(n / 10);
      s
  }

  function Zeros(k: nat): (z: string)
    ensures |z| == k && AllDigits(z)
  {
    seq(k, _ => '0')
  }

  /** `s` widened to `width` characters with leading zeros (unchanged when already wide enough). */
  function PadLeft(s: string, width: nat): string {
    if |s| >= width then s else Zeros(width - |s|) + s
  }

  /** A numeral as .NET writes an integer: optional minus sign, no superfluous leading zero, no "-0". */
  predicate CanonicalNumeral(s: string) {
    || (1 <= |s| && AllDigits(s) && (s[0] == '0' ==> |s| == 1))
    || (2 <= |s| && s[0] == '-' && AllDigits(s[1..]) && s[1] != '0')
  }

  /** Invariant-culture decimal text of an integer. */
  function FormatInt(i: int): (s: string)
    ensures CanonicalNumeral(s)
    ensures ParseInt(s) == Some(i)
  {
    if i < 0 then
      var s := "-" + FormatNat(-i);
      assert s[1..] == FormatNat(-i);
      s
    else FormatNat(i)
  }

  /** Integer text grammar: an optional leading minus sign followed by one or more digits. */
  function ParseInt(s: string): Option<int> {
    if 2 <= |s| && s[0] == '-' && AllDigits(s[1..]) then Some(-(DigitsValue(s[1..]) as int))
    else if 1 <= |s| && AllDigits(s) then Some(DigitsValue(s))
    else None
  }

  lemma {:induction false} ZeroValueIsZeros(t: string)
    requires AllDigits(t) && DigitsValue(t) == 0
    ensures t == Zeros(|t|)
  {
    if |t| > 0 {
      var t' := t[..|t| - 1];
      assert AllDigits(t');
      ZeroValueIsZeros(t');
      assert t == t' + [t[|t| - 1]];
    }
  }

  lemma {:induction false} PadLeftSnoc(s: string, c: char, width: nat)
    ensures PadLeft(s + [c], width + 1) == PadLeft(s, width) + [c]
  {
    if |s| < width {
      assert Zeros(width + 1 - |s + [c]|) + (s + [c]) == (Zeros(width - |s|) + s) + [c];
    }
  }

  /** Reading a digit string and writing the number back, padded to the same width, gives the string. */
  lemma {:induction false} PaddedFormatOfDigits(t: string)
    requires 1 <= |t| && AllDigits(t)
    ensures PadLeft(FormatNat(DigitsValue(t)), |t|) == t
  {
    var t' := t[..|t| - 1];
    var c := t[|t| - 1];
    assert AllDigits(t');
    assert t == t' + [c];
    var v' := DigitsValue(t');
    var v := DigitsValue(t);
    assert v == 10 * v' + DigitValue(c);
    assert DigitChar(DigitValue(c)) == c;
    if v' == 0 {
      ZeroValueIsZeros(t');
      assert FormatNat(v) == [c];
      assert PadLeft([c], |t|) == Zeros(|t| - 1) + [c];
    } else {
      assert v / 10 == v' && v % 10 == DigitValue(c);
      assert FormatNat(v) == FormatNat(v') + [c];
      PaddedFormatOfDigits(t');
      PadLeftSnoc(FormatNat(v'), c, |t'|);
    }
  }

  /** Every canonical numeral is what `FormatInt` writes for the number it denotes. */
  lemma {:induction false} CanonicalNumeralRoundTrip(s: string)
    requires CanonicalNumeral(s)
    ensures ParseInt(s).Some? && FormatInt(ParseInt(s).value) == s
  {
    if 2 <= |s| && s[0] == '-' {
      var t := s[1..];
      PaddedFormatOfDigits(t);
      var f := FormatNat(DigitsValue(t));
      assert f == t;
      assert s == "-" + t;
    } else {
      PaddedFormatOfDigits(s);
      var f := FormatNat(DigitsValue(s));
      assert f == s;
    }
  }

  /** Concatenates `parts` with `sep` between neighbours; no parts give the empty string. */
  function Join(parts: seq<string>, sep: char): string {
    if |parts| == 0 then ""
    else if |parts| == 1 then parts[0]
    else parts[0] + [sep] + Join(parts[1..], sep)
  }

  /** ASCII lower-casing of one character. */
  function LowerChar(c: char): char {
    if 'A' <= c <= 'Z' then (c as int + 32) as char else c
  }

  function ToLower(s: string): (r: string)
    ensures |r| == |s|
  {
    seq(|s|, i requires 0 <= i < |s| => LowerChar(s[i]))
  }

  /** Case-insensitive name equality, as used to pair members and dictionary keys. */
  predicate SameName(a: string, b: string) {
    ToLower(a) == ToLower(b)
  }

  /** The first index of `xs` whose element satisfies `p`, if any. */
  function FirstIndex<T>(xs: seq<T>, p: T -> bool): (r: Option<nat>)
    ensures r.Some? ==> r.value < |xs| && p(xs[r.value])
    ensures r.Some? ==> forall j :: 0 <= j < r.value ==> !p(xs[j])
    ensures r.None? <==> forall j :: 0 <= j < |xs| ==> !p(xs[j])
  {
    if |xs| == 0 then None
    else if p(xs[0]) then Some(0)
    else
      match FirstIndex(xs[1..], p)
      case Some(k) => Some(k + 1)
      case None => None
  }
}
