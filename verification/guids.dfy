/**
 * Unique identifiers and their text form. A guid converts to text as 32 lower-case
 * hexadecimal digits without punctuation; text converts to a guid from that form or
 * from the hyphenated form, optionally enclosed in braces or parentheses, in either case.
 */
module Guids {
  import opened Outcomes
  import opened Text

  type Nibble = n: int | 0 <= n < 16

  /** The 128 bits of a guid as 32 hexadecimal digits, most significant first. */
  type GuidDigits = s: seq<Nibble> | |s| == 32 witness seq(32, _ => 0)

  /** The all-zero guid, Guid.Empty. */
  function EmptyGuid(): GuidDigits {
    seq(32, _ => 0)
  }

  function HexChar(n: Nibble): char {
    if n < 10 then DigitChar(n) else ('a' as int + n - 10) as char
  }

  predicate IsHex(c: char) {
    ('0' <= c <= '9') || ('a' <= c <= 'f') || ('A' <= c <= 'F')
  }

  function HexValue(c: char): Nibble
    requires IsHex(c)
  {
    if '0' <= c <= '9' then c as int - '0' as int
    else if 'a' <= c <= 'f' then c as int - 'a' as int + 10
    else c as int - 'A' as int + 10
  }

  /** The "N" format: 32 lower-case hexadecimal digits. */
  function FormatGuid(g: GuidDigits): (s: string)
    ensures |s| == 32
  {
    seq(32, i requires 0 <= i < 32 => HexChar(g[i]))
  }

  /** The hyphen positions of the "D" format, 8-4-4-4-12. */
  predicate Hyphenated(t: string) {
    |t| == 36 && t[8] == '-' && t[13] == '-' && t[18] == '-' && t[23] == '-'
  }

  function Unhyphenate(t: string): (r: string)
    requires Hyphenated(t)
    ensures |r| == 32
  {
    t[..8] + t[9..13] + t[14..18] + t[19..23] + t[24..]
  }

  /** The 32 digit characters of an "N", "D", "B" or "P" format text, if it has one of those layouts. */
  function GuidDigitText(s: string): (r: Option<string>)
    ensures r.Some? ==> |r.value| == 32
  {
    if |s| == 32 then Some(s)
    else if Hyphenated(s) then Some(Unhyphenate(s))
    else if |s| == 38 && ((s[0] == '{' && s[37] == '}') || (s[0] == '(' && s[37] == ')')) && Hyphenated(s[1..37]) then
      Some(Unhyphenate(s[1..37]))
    else None
  }

  function ParseGuid(s: string): Option<GuidDigits> {
    match GuidDigitText(s)
    case None => None
    case Some(t) =>
      if forall i :: 0 <= i < 32 ==> IsHex(t[i]) then Some(seq(32, i requires 0 <= i < 32 => HexValue(t[i])))
      else None
  }

  /** Writing a guid and reading the text back gives the guid. */
  lemma {:induction false} ParseFormatGuid(g: GuidDigits)
    ensures ParseGuid(FormatGuid(g)) == Some(g)
  {
    var s := FormatGuid(g);
    assert GuidDigitText(s) == Some(s);
    forall i | 0 <= i < 32
      ensures IsHex(s[i]) && HexValue(s[i]) == g[i]
    {
    }
    assert seq(32, i requires 0 <= i < 32 => HexValue(s[i])) == g;
  }

  /** Any accepted text, punctuated or not and in either case, is written back as its digits in lower case. */
  lemma {:induction false} FormatParseGuid(s: string)
    requires ParseGuid(s).Some?
    ensures GuidDigitText(s).Some?
    ensures FormatGuid(ParseGuid(s).value) == ToLower(GuidDigitText(s).value)
  {
    var t := GuidDigitText(s).value;
    var g := ParseGuid(s).value;
    forall i | 0 <= i < 32
      ensures FormatGuid(g)[i] == ToLower(t)[i]
    {
      assert IsHex(t[i]);
      assert g[i] == HexValue(t[i]);
    }
  }
}
