/**
 * The text form a value takes when it is converted into a string member: scalars in
 * their canonical invariant form, lists as `[a,b]`, dictionaries and composite members
 * as `{Key:Value,...}` in order with null values skipped and no whitespace. A nested
 * string that contains a structural character is written between double quotes with
 * embedded quotes doubled.
 */
module Render {
  import opened Text
  import opened Calendar
  import opened Guids
  import opened Enums
  import opened Values

  /** Characters that would break the bracketed structure if written unquoted. */
  predicate IsDelimiter(c: char) {
    c == '"' || c == ',' || c == '{' || c == '}' || c == '[' || c == ']'
  }

  predicate Plain(s: string) {
    forall i :: 0 <= i < |s| ==> !IsDelimiter(s[i])
  }

  /** Each double quote written twice. */
  function DoubleQuotes(s: string): (r: string)
    ensures |r| >= |s|
  {
    if |s| == 0 then ""
    else if s[0] == '"' then "\"\"" + DoubleQuotes(s[1..])
    else [s[0]] + DoubleQuotes(s[1..])
  }

  /** Reads doubled quotes back as single ones. */
  function UndoubleQuotes(t: string): string {
    if |t| == 0 then ""
    else if |t| >= 2 && t[0] == '"' && t[1] == '"' then "\"" + UndoubleQuotes(t[2..])
    else [t[0]] + UndoubleQuotes(t[1..])
  }

  /** A nested string as written inside brackets: verbatim when plain, quoted otherwise. */
  function Escape(s: string): (r: string)
    ensures Plain(s) ==> r == s
    ensures !Plain(s) ==> |r| >= 2 && r[0] == '"' && r[|r| - 1] == '"'
  {
    if Plain(s) then s else "\"" + DoubleQuotes(s) + "\""
  }

  /** Reads one written string back: strips enclosing quotes and undoubles the quotes inside. */
  function Unescape(t: string): string {
    if |t| >= 2 && t[0] == '"' && t[|t| - 1] == '"' then UndoubleQuotes(t[1..|t| - 1]) else t
  }

  lemma {:induction false} UndoubleDouble(s: string)
    ensures UndoubleQuotes(DoubleQuotes(s)) == s
  {
    if |s| > 0 {
      UndoubleDouble(s[1..]);
      var d := DoubleQuotes(s);
      if s[0] == '"' {
        assert d[2..] == DoubleQuotes(s[1..]);
      } else {
        assert d[1..] == DoubleQuotes(s[1..]);
        assert !(|d| >= 2 && d[0] == '"');
      }
      assert s == [s[0]] + s[1..];
    }
  }

  /** Reading back a written string gives the string. */
  lemma {:induction false} UnescapeEscape(s: string)
    ensures Unescape(Escape(s)) == s
  {
    if Plain(s) {
      if |s| >= 2 {
        assert !IsDelimiter(s[0]);
      }
    } else {
      var t := Escape(s);
      assert t[1..|t| - 1] == DoubleQuotes(s);
      UndoubleDouble(s);
    }
  }

  // ---------------------------------------------------------------- reading items back

  /** Whether the reader is inside quotes after reading `t`, starting in state `quoted`: each double quote toggles it. */
  function QuotedAfter(quoted: bool, t: string): bool
    decreases |t|
  {
    if |t| == 0 then quoted else QuotedAfter(if t[0] == '"' then !quoted else quoted, t[1..])
  }

  /** Length of the leading item of `t`: up to the first comma read outside quotes, or all of `t`. */
  function ItemLength(quoted: bool, t: string): (n: nat)
    ensures n <= |t|
    ensures n < |t| ==> t[n] == ','
    decreases |t|
  {
    if |t| == 0 then 0
    else if t[0] == ',' && !quoted then 0
    else 1 + ItemLength(if t[0] == '"' then !quoted else quoted, t[1..])
  }

  /** One written item: no comma outside quotes, and its quotes balanced. */
  predicate WholeItem(t: string) {
    ItemLength(false, t) == |t| && !QuotedAfter(false, t)
  }

  /**
   * The items of a list body, split at each comma read outside quotes; a comma inside a
   * quoted item belongs to the item.
   */
  function SplitItems(t: string): (r: seq<string>)
    ensures 1 <= |r|
    ensures Join(r, ',') == t
    ensures forall i :: 0 <= i < |r| ==> ItemLength(false, r[i]) == |r[i]|
    ensures forall i :: 0 <= i < |r| - 1 ==> !QuotedAfter(false, r[i])
    decreases |t|
  {
    var n := ItemLength(false, t);
    if n == |t| then [t]
    else
      var rest := SplitItems(t[n + 1..]);
      ItemPrefix(false, t);
      var r := [t[..n]] + rest;
      assert r[1..] == rest;
      assert t == t[..n] + [','] + t[n + 1..];
      r
  }

  /** The leading item is read as one item, and the comma after it is read outside quotes. */
  lemma {:induction false} ItemPrefix(quoted: bool, t: string)
    ensures ItemLength(quoted, t[..ItemLength(quoted, t)]) == ItemLength(quoted, t)
    ensures ItemLength(quoted, t) < |t| ==> !QuotedAfter(quoted, t[..ItemLength(quoted, t)])
    decreases |t|
  {
    if |t| > 0 && !(t[0] == ',' && !quoted) {
      var q := if t[0] == '"' then !quoted else quoted;
      var n := ItemLength(quoted, t);
      ItemPrefix(q, t[1..]);
      assert t[..n][1..] == t[1..][..n - 1];
    }
  }

  lemma {:induction false} QuotedAfterAppend(quoted: bool, p: string, rest: string)
    ensures QuotedAfter(quoted, p + rest) == QuotedAfter(QuotedAfter(quoted, p), rest)
    decreases |p|
  {
    if |p| > 0 {
      assert (p + rest)[1..] == p[1..] + rest;
      QuotedAfterAppend(if p[0] == '"' then !quoted else quoted, p[1..], rest);
    } else {
      assert p + rest == rest;
    }
  }

  /** An item with no comma outside quotes is read whole, and reading continues after it. */
  lemma {:induction false} ItemAppend(quoted: bool, p: string, rest: string)
    requires ItemLength(quoted, p) == |p|
    ensures ItemLength(quoted, p + rest) == |p| + ItemLength(QuotedAfter(quoted, p), rest)
    decreases |p|
  {
    if |p| > 0 {
      assert (p + rest)[1..] == p[1..] + rest;
      ItemAppend(if p[0] == '"' then !quoted else quoted, p[1..], rest);
    } else {
      assert p + rest == rest;
    }
  }

  /** Two written items side by side read as one. */
  lemma {:induction false} WholeAppend(a: string, b: string)
    requires WholeItem(a) && WholeItem(b)
    ensures WholeItem(a + b)
  {
    ItemAppend(false, a, b);
    QuotedAfterAppend(false, a, b);
  }

  /** Text without structural characters is read whole, whatever the state. */
  lemma {:induction false} PlainItem(quoted: bool, s: string)
    requires Plain(s)
    ensures ItemLength(quoted, s) == |s| && QuotedAfter(quoted, s) == quoted
    decreases |s|
  {
    if |s| > 0 {
      assert !IsDelimiter(s[0]);
      PlainItem(quoted, s[1..]);
    }
  }

  /** Inside quotes, a string with its quotes doubled is read through and leaves the reader inside quotes. */
  lemma {:induction false} DoubledItem(s: string)
    ensures ItemLength(true, DoubleQuotes(s)) == |DoubleQuotes(s)|
    ensures QuotedAfter(true, DoubleQuotes(s))
    decreases |s|
  {
    if |s| > 0 {
      var d := DoubleQuotes(s);
      DoubledItem(s[1..]);
      if s[0] == '"' {
        assert d[1..][1..] == DoubleQuotes(s[1..]);
      } else {
        assert d[1..] == DoubleQuotes(s[1..]);
      }
    }
  }

  /** Every written string is read back as one item, commas and quotes included. */
  lemma {:induction false} EscapeWhole(s: string)
    ensures WholeItem(Escape(s))
  {
    if Plain(s) {
      PlainItem(false, s);
    } else {
      var d := DoubleQuotes(s);
      var t := Escape(s);
      DoubledItem(s);
      assert t[1..] == d + "\"";
      ItemAppend(true, d, "\"");
      QuotedAfterAppend(true, d, "\"");
    }
  }

  /** Splitting a join of written items recovers the items. */
  lemma {:induction false} SplitItemsJoin(parts: seq<string>)
    requires 1 <= |parts|
    requires forall i :: 0 <= i < |parts| ==> WholeItem(parts[i])
    ensures SplitItems(Join(parts, ',')) == parts
  {
    if |parts| > 1 {
      var rest := Join(parts[1..], ',');
      var t := Join(parts, ',');
      assert t == parts[0] + ([','] + rest);
      ItemAppend(false, parts[0], [','] + rest);
      assert t[..|parts[0]|] == parts[0];
      assert t[|parts[0]| + 1..] == rest;
      SplitItemsJoin(parts[1..]);
      assert [parts[0]] + parts[1..] == parts;
    }
  }

  function BoolText(b: bool): string {
    if b then "true" else "false"
  }

  /** The written form of a value nested inside a list, dictionary or composite. */
  function RenderValue(v: Value): (r: string)
    ensures v.Seq? ==> |r| >= 2 && r[0] == '[' && r[|r| - 1] == ']'
    ensures v.Map? || v.Obj? ==> |r| >= 2 && r[0] == '{' && r[|r| - 1] == '}'
    decreases v, 1
  {
    match v
    case Null => ""
    case Int(i) => FormatInt(i)
    case Str(s) => Escape(s)
    case Bool(b) => BoolText(b)
    case EnumV(d, o) => EnumText(d, o)
    case Date(d) => FormatDate(d)
    case Guid(g) => FormatGuid(g)
    case Seq(items) => "[" + Join(RenderItems(items), ',') + "]"
    case Map(entries) => "{" + Join(RenderEntries(entries), ',') + "}"
    case Obj(fields) => "{" + Join(RenderFields(fields), ',') + "}"
  }

  function RenderItems(items: seq<Value>): (r: seq<string>)
    ensures |r| == |items|
    ensures forall i :: 0 <= i < |items| ==> r[i] == RenderValue(items[i])
    decreases items, 0
  {
    if |items| == 0 then [] else [RenderValue(items[0])] + RenderItems(items[1..])
  }

  /** One `key:value` piece per entry whose value is not null, in entry order. */
  function RenderEntries(entries: seq<Entry>): seq<string>
    decreases entries, 0
  {
    if |entries| == 0 then []
    else if entries[0].val.Null? then RenderEntries(entries[1..])
    else [RenderEntry(entries[0])] + RenderEntries(entries[1..])
  }

  function RenderEntry(e: Entry): string
    decreases e, 0
  {
    RenderValue(e.key) + ":" + RenderValue(e.val)
  }

  /** One `Name:value` piece per member whose value is not null, in member order. */
  function RenderFields(fields: seq<Field>): seq<string>
    decreases fields, 0
  {
    if |fields| == 0 then []
    else if fields[0].val.Null? then RenderFields(fields[1..])
    else [fields[0].name + ":" + RenderValue(fields[0].val)] + RenderFields(fields[1..])
  }

  // ---------------------------------------------------------------- composite text, item by item

  /** The members of a composite that are written: those whose value is not null, in member order. */
  function PresentFields(fields: seq<Field>): (r: seq<Field>)
    ensures |r| <= |fields|
    ensures forall x :: x in r <==> x in fields && !x.val.Null?
  {
    if |fields| == 0 then []
    else if fields[0].val.Null? then PresentFields(fields[1..])
    else [fields[0]] + PresentFields(fields[1..])
  }

  /**
   * The entries of a dictionary that are written: those whose value is not null, in entry
   * order. The same filter as `PresentFields`, over entries rather than members: the two
   * carry different payloads (a value key against a member name) and are written differently.
   */
  function PresentEntries(entries: seq<Entry>): (r: seq<Entry>)
    ensures |r| <= |entries|
    ensures forall x :: x in r <==> x in entries && !x.val.Null?
  {
    if |entries| == 0 then []
    else if entries[0].val.Null? then PresentEntries(entries[1..])
    else [entries[0]] + PresentEntries(entries[1..])
  }

  /** A composite's pieces are, in order, `Name:value` for each member that is not null. */
  lemma {:induction false} FieldsWritten(fields: seq<Field>)
    ensures |RenderFields(fields)| == |PresentFields(fields)|
    ensures forall i :: 0 <= i < |PresentFields(fields)| ==>
      RenderFields(fields)[i] == PresentFields(fields)[i].name + ":" + RenderValue(PresentFields(fields)[i].val)
  {
    if |fields| > 0 {
      FieldsWritten(fields[1..]);
    }
  }

  /** A dictionary's pieces are, in order, `key:value` for each entry whose value is not null. */
  lemma {:induction false} EntriesWritten(entries: seq<Entry>)
    ensures |RenderEntries(entries)| == |PresentEntries(entries)|
    ensures forall i :: 0 <= i < |PresentEntries(entries)| ==>
      RenderEntries(entries)[i] == RenderValue(PresentEntries(entries)[i].key) + ":" + RenderValue(PresentEntries(entries)[i].val)
  {
    if |entries| > 0 {
      EntriesWritten(entries[1..]);
    }
  }

  /** Null, integers, strings and booleans are each written as one item. */
  lemma {:induction false} ScalarWhole(v: Value)
    requires v.Null? || v.Int? || v.Str? || v.Bool?
    ensures WholeItem(RenderValue(v))
  {
    match v
    case Int(i) =>
      assert Plain(FormatInt(i));
      PlainItem(false, FormatInt(i));
    case Str(s) => EscapeWhole(s);
    case Bool(b) => PlainItem(false, BoolText(b));
    case _ =>
  }

  /** A name without structural characters followed by a colon and one written item is one written item. */
  lemma {:induction false} LabelledWhole(name: string, t: string)
    requires Plain(name) && WholeItem(t)
    ensures WholeItem(name + ":" + t)
  {
    assert Plain(name + ":");
    PlainItem(false, name + ":");
    WholeAppend(name + ":", t);
  }

  /** The text a value converts to when the destination is a string: a string is taken verbatim. */
  function ToText(v: Value): string {
    if v.Str? then v.s else RenderValue(v)
  }
}
