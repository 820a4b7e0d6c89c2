/**
 * Enumeration types: a declared list of member names whose i-th name has the
 * underlying integer value i. Conversions between an enum and text go through these
 * names; conversions between two different enums match names case-insensitively.
 */
module Enums {
  import opened Outcomes
  import opened Text

  /** An enumeration type: its type name and its member names in declaration order. */
  datatype EnumDecl = EnumDecl(name: string, names: seq<string>)

  /** The compiler guarantees that an enum declares each name once. */
  predicate DistinctNames(names: seq<string>) {
    forall i, j :: 0 <= i < j < |names| ==> names[i] != names[j]
  }

  /** Enum-to-text: the declared name of the value, or its decimal numeral when no name has that value. */
  function EnumText(d: EnumDecl, ordinal: int): (s: string)
    ensures 0 <= ordinal < |d.names| ==> s == d.names[ordinal]
    ensures !(0 <= ordinal < |d.names|) ==> ParseInt(s) == Some(ordinal)
  {
    if 0 <= ordinal < |d.names| then d.names[ordinal] else FormatInt(ordinal)
  }

  /**
   * Text-to-enum: the value whose name equals the text exactly, else the first whose name
   * equals it ignoring case, else the enum's zero value.
   */
  function EnumFromText(d: EnumDecl, s: string): (ordinal: int)
    ensures ordinal == 0 || (0 <= ordinal < |d.names| && SameName(d.names[ordinal], s))
    ensures (exists i :: 0 <= i < |d.names| && d.names[i] == s) ==> 0 <= ordinal < |d.names| && d.names[ordinal] == s
    ensures (exists i :: 0 <= i < |d.names| && SameName(d.names[i], s)) ==> 0 <= ordinal < |d.names| && SameName(d.names[ordinal], s)
    ensures (forall i :: 0 <= i < |d.names| ==> !SameName(d.names[i], s)) ==> ordinal == 0
  {
    match FirstIndex(d.names, n => n == s)
    case Some(i) => i
    case None =>
      match FirstIndex(d.names, n => SameName(n, s))
      case Some(i) => i
      case None => 0
  }

  /**
   * Enum-to-other-enum: the first value of `to` whose name matches the source value's name
   * ignoring case; the zero value of `to` when there is none or the source value has no name.
   */
  function EnumAcross(from: EnumDecl, ordinal: int, to: EnumDecl): (r: int)
    ensures r == 0 || (0 <= r < |to.names| && 0 <= ordinal < |from.names| && SameName(to.names[r], from.names[ordinal]))
    ensures 0 <= ordinal < |from.names| && (exists i :: 0 <= i < |to.names| && SameName(to.names[i], from.names[ordinal])) ==>
      0 <= r < |to.names| && SameName(to.names[r], from.names[ordinal])
  {
    if 0 <= ordinal < |from.names| then
      match FirstIndex(to.names, n => SameName(n, from.names[ordinal]))
      case Some(i) => i
      case None => 0
    else 0
  }
}
