/**
 * General laws of the conversion engine: enums to and from names and integers and across
 * enumerations, scalar text round trips, order-preserving collection conversion, entry-wise
 * dictionary conversion, attribute-filtered population and null retention.
 */
module Properties {
  import opened Outcomes
  import opened Text
  import opened Calendar
  import opened Guids
  import opened Enums
  import opened Values
  import opened Render
  import opened Keyed
  import opened Mapper
  import opened Identity

  // ---------------------------------------------------------------- branches of Convert
  // Each lemma in this section is one branch of `Convert` read off its definition; the laws
  // below use them as steps.

  /** A null converts to the destination's default: null for reference types and nullables, zero for value types. */
  lemma {:induction false} NullConversion(s: Shape)
    ensures Convert(Null, s) == Ok(DefaultOf(s))
    ensures AdmitsNull(s) ==> Convert(Null, s) == Ok(Null)
  {
  }

  /** A present value converts into `T?` exactly as into `T`, and out of a nullable source as itself. */
  lemma {:induction false} NullableTransparent(v: Value, s: Shape)
    requires !v.Null?
    ensures Convert(v, Nullable(s)) == Convert(v, s)
  {
  }

  /** Text reaches the text parser for every destination that is neither a string nor unconstrained nor nullable. */
  lemma {:induction false} ConvertFromText(s: string, dest: Shape)
    requires !dest.Any? && !dest.Nullable? && !dest.ScalarStr?
    ensures Convert(Str(s), dest) == ConvertText(s, dest)
  {
  }

  /** Any present value converts into a string member as its text form. */
  lemma {:induction false} ConvertToText(v: Value)
    requires !v.Null?
    ensures Convert(v, ScalarStr) == Ok(Str(ToText(v)))
  {
  }

  /** Text the date parser accepts converts into a date as the date it denotes. */
  lemma {:induction false} TextIntoDate(s: string)
    requires ParseDate(s).Some?
    ensures ConvertText(s, ScalarDate) == Ok(Date(ParseDate(s).value))
  {
  }

  /** Text converts into a collection by reading each item of its list body into the element type. */
  lemma {:induction false} TextIntoCollection(s: string, k: CollectionKind, e: Shape)
    ensures ConvertText(s, Collection(k, e)) == Ok(Seq(ConvertPieces(ListPieces(s), e)))
  {
  }

  /** An integer out of the member's range does not convert. */
  lemma {:induction false} IntOverflow(i: int, w: IntWidth)
    requires !InRange(i, w)
    ensures Convert(Int(i), ScalarInt(w)).Err?
    ensures Convert(Str(FormatInt(i)), ScalarInt(w)) == Err(Overflow(i, ScalarInt(w)))
  {
  }

  // ---------------------------------------------------------------- enums

  /** An enum value converts to its declared name, and the name converts back to the value, nullable or not. */
  lemma {:induction false} EnumTextRoundTrip(d: EnumDecl, o: int)
    requires DistinctNames(d.names) && 0 <= o < |d.names| && InRange(o, Int32)
    ensures Convert(EnumV(d, o), ScalarStr) == Ok(Str(d.names[o]))
    ensures Convert(Str(d.names[o]), Enum(d)) == Ok(EnumV(d, o))
    ensures Convert(Str(d.names[o]), Nullable(Enum(d))) == Ok(EnumV(d, o))
  {
    var s := d.names[o];
    var k := EnumFromText(d, s);
    assert 0 <= o < |d.names| && d.names[o] == s;
    assert 0 <= k < |d.names| && d.names[k] == s;
  }

  /** An enum value converts to its underlying integer, and the integer converts back to the value, nullable or not. */
  lemma {:induction false} EnumIntRoundTrip(d: EnumDecl, o: int)
    requires InRange(o, Int32)
    ensures Convert(EnumV(d, o), ScalarInt(Int32)) == Ok(Int(o))
    ensures Convert(EnumV(d, o), Nullable(ScalarInt(Int32))) == Ok(Int(o))
    ensures Convert(Int(o), Enum(d)) == Ok(EnumV(d, o))
    ensures Convert(Int(o), Nullable(Enum(d))) == Ok(EnumV(d, o))
  {
  }

  /** Text naming no member, even ignoring case, reads as the enum's zero value. */
  lemma {:induction false} EnumUnknownText(d: EnumDecl, s: string)
    requires forall i :: 0 <= i < |d.names| ==> !SameName(d.names[i], s)
    ensures Convert(Str(s), Enum(d)) == Ok(EnumV(d, 0))
  {
  }

  /** Enum names that differ even ignoring case. */
  predicate CaseDistinctNames(names: seq<string>) {
    forall i, j :: 0 <= i < j < |names| ==> !SameName(names[i], names[j])
  }

  /**
   * A value of one enumeration converts into another by name: to the destination member
   * whose name matches ignoring case, through any nullable wrapper.
   */
  lemma {:induction false} EnumAcrossByName(from: EnumDecl, o: int, to: EnumDecl, k: nat)
    requires 0 <= o < |from.names| && k < |to.names| && SameName(to.names[k], from.names[o])
    requires CaseDistinctNames(to.names) && InRange(k, Int32)
    ensures Convert(EnumV(from, o), Enum(to)) == Ok(EnumV(to, k))
    ensures Convert(EnumV(from, o), Nullable(Enum(to))) == Ok(EnumV(to, k))
  {
    if from != to {
      var r := EnumAcross(from, o, to);
      assert 0 <= r < |to.names| && SameName(to.names[r], from.names[o]);
    }
  }

  /** Two enumerations declaring the same names convert into each other and back without loss. */
  lemma {:induction false} EnumAcrossRoundTrip(a: EnumDecl, b: EnumDecl, o: int)
    requires a.names == b.names && CaseDistinctNames(a.names) && 0 <= o < |a.names| && InRange(o, Int32)
    ensures Convert(EnumV(a, o), Enum(b)) == Ok(EnumV(b, o))
    ensures Convert(EnumV(b, o), Enum(a)) == Ok(EnumV(a, o))
  {
    EnumAcrossByName(a, o, b, o);
    EnumAcrossByName(b, o, a, o);
  }

  // ---------------------------------------------------------------- scalar text

  /** A canonical numeral reads as its integer, and the integer writes back as the same numeral. */
  lemma {:induction false} IntTextRoundTrip(s: string, w: IntWidth)
    requires CanonicalNumeral(s)
    requires ParseInt(s).Some? && InRange(ParseInt(s).value, w)
    ensures Convert(Str(s), ScalarInt(w)) == Ok(Int(ParseInt(s).value))
    ensures Convert(Int(ParseInt(s).value), ScalarStr) == Ok(Str(s))
  {
    CanonicalNumeralRoundTrip(s);
  }

  /**
   * A composite converts into a string as `{...}`: `{}` when every member is null, and
   * otherwise text whose items, split at the commas outside quotes, are `Name:value` for each
   * member that is not null, in member order. Members are named without structural characters
   * and each present value is written as one item.
   */
  lemma {:induction false} CompositeText(fields: seq<Field>)
    requires forall i :: 0 <= i < |fields| && !fields[i].val.Null? ==>
      Plain(fields[i].name) && WholeItem(RenderValue(fields[i].val))
    ensures Convert(Obj(fields), ScalarStr).Ok? && Convert(Obj(fields), ScalarStr).value.Str?
    ensures var t := Convert(Obj(fields), ScalarStr).value.s;
      && |t| >= 2 && t[0] == '{' && t[|t| - 1] == '}'
      && (PresentFields(fields) == [] ==> t == "{}")
      && (PresentFields(fields) != [] ==>
            var items := SplitItems(t[1..|t| - 1]);
            && |items| == |PresentFields(fields)|
            && forall i :: 0 <= i < |items| ==>
                 items[i] == PresentFields(fields)[i].name + ":" + RenderValue(PresentFields(fields)[i].val))
  {
    ConvertToText(Obj(fields));
    var parts := RenderFields(fields);
    var t := "{" + Join(parts, ',') + "}";
    assert ToText(Obj(fields)) == t;
    assert t[1..|t| - 1] == Join(parts, ',');
    FieldsWritten(fields);
    var present := PresentFields(fields);
    if present != [] {
      forall i | 0 <= i < |parts|
        ensures WholeItem(parts[i])
      {
        assert present[i] in fields;
        LabelledWhole(present[i].name, RenderValue(present[i].val));
      }
      SplitItemsJoin(parts);
    }
  }

  /**
   * A dictionary converts into a string as `{...}`: `{}` when every value is null, and
   * otherwise text whose items, split at the commas outside quotes, are `key:value` for each
   * entry whose value is not null, in entry order, when each present key and value is
   * written as one item.
   */
  lemma {:induction false} DictionaryText(entries: seq<Entry>)
    requires forall i :: 0 <= i < |entries| && !entries[i].val.Null? ==>
      WholeItem(RenderValue(entries[i].key)) && WholeItem(RenderValue(entries[i].val))
    ensures Convert(Map(entries), ScalarStr).Ok? && Convert(Map(entries), ScalarStr).value.Str?
    ensures var t := Convert(Map(entries), ScalarStr).value.s;
      && |t| >= 2 && t[0] == '{' && t[|t| - 1] == '}'
      && (PresentEntries(entries) == [] ==> t == "{}")
      && (PresentEntries(entries) != [] ==>
            var items := SplitItems(t[1..|t| - 1]);
            && |items| == |PresentEntries(entries)|
            && forall i :: 0 <= i < |items| ==>
                 items[i] == RenderValue(PresentEntries(entries)[i].key) + ":" + RenderValue(PresentEntries(entries)[i].val))
  {
    ConvertToText(Map(entries));
    var parts := RenderEntries(entries);
    var t := "{" + Join(parts, ',') + "}";
    assert ToText(Map(entries)) == t;
    assert t[1..|t| - 1] == Join(parts, ',');
    EntriesWritten(entries);
    var present := PresentEntries(entries);
    if present != [] {
      forall i | 0 <= i < |parts|
        ensures WholeItem(parts[i])
      {
        assert present[i] in entries;
        var k := RenderValue(present[i].key);
        ColonWhole(k, RenderValue(present[i].val));
      }
      SplitItemsJoin(parts);
    }
  }

  lemma {:induction false} ColonWhole(a: string, b: string)
    requires WholeItem(a) && WholeItem(b)
    ensures WholeItem(a + ":" + b)
  {
    PlainItem(false, ":");
    WholeAppend(a, ":");
    WholeAppend(a + ":", b);
  }

  /** A date writes as `YYYY-MM-DD` and reads back. */
  lemma {:induction false} DateTextRoundTrip(d: CalendarDate)
    ensures Convert(Date(d), ScalarStr) == Ok(Str(FormatDate(d)))
    ensures Convert(Str(FormatDate(d)), ScalarDate) == Ok(Date(d))
  {
    ConvertToText(Date(d));
    DateFromText(d);
  }

  lemma {:induction false} DateFromText(d: CalendarDate)
    ensures Convert(Str(FormatDate(d)), ScalarDate) == Ok(Date(d))
  {
    var s := FormatDate(d);
    ConvertFromText(s, ScalarDate);
    ParseFormatDate(d);
    TextIntoDate(s);
  }

  /** Every readable date text is exactly what the date it denotes writes. */
  lemma {:induction false} DateTextCanonical(s: string)
    requires ParseDate(s).Some?
    ensures Convert(Str(s), ScalarDate) == Ok(Date(ParseDate(s).value))
    ensures Convert(Date(ParseDate(s).value), ScalarStr) == Ok(Str(s))
  {
    ConvertFromText(s, ScalarDate);
    TextIntoDate(s);
    ConvertToText(Date(ParseDate(s).value));
    FormatParseDate(s);
  }

  /** A guid writes as 32 lower-case hex digits and reads back; a readable guid text writes back lower-cased without hyphens. */
  lemma {:induction false} GuidTextRoundTrip(g: GuidDigits, s: string)
    ensures Convert(Guid(g), ScalarStr) == Ok(Str(FormatGuid(g)))
    ensures Convert(Str(FormatGuid(g)), ScalarGuid) == Ok(Guid(g))
    ensures ParseGuid(s).Some? ==> Convert(Str(s), ScalarGuid) == Ok(Guid(ParseGuid(s).value))
    ensures ParseGuid(s).Some? ==>
      GuidDigitText(s).Some? && Convert(Guid(ParseGuid(s).value), ScalarStr) == Ok(Str(ToLower(GuidDigitText(s).value)))
  {
    ParseFormatGuid(g);
    if ParseGuid(s).Some? {
      FormatParseGuid(s);
    }
  }

  /** A boolean writes as `true`/`false` and reads back. */
  lemma {:induction false} BoolTextRoundTrip(b: bool)
    ensures Convert(Bool(b), ScalarStr) == Ok(Str(BoolText(b)))
    ensures Convert(Str(BoolText(b)), ScalarBool) == Ok(Bool(b))
  {
    assert SameName(BoolText(b), BoolText(b));
  }

  /** Text converts into a boolean exactly when it is a written boolean up to case, and then as that boolean. */
  lemma {:induction false} BoolTextAccepted(s: string)
    ensures Convert(Str(s), ScalarBool).Ok? <==> SameName(s, BoolText(true)) || SameName(s, BoolText(false))
    ensures Convert(Str(s), ScalarBool).Ok? ==>
      Convert(Str(s), ScalarBool).value.Bool? && ToLower(s) == BoolText(Convert(Str(s), ScalarBool).value.b)
  {
    assert ToLower("true") == "true";
    assert ToLower("false") == "false";
  }

  // ---------------------------------------------------------------- null and nullable

  /**
   * Null retention: a destination member whose source has no non-null value for it keeps its
   * value, whatever the filter.
   */
  lemma {:induction false} PopulateRetainsOnNull(ms: seq<Member>, dest: seq<Field>, fields: seq<Field>, filter: Filter, i: nat)
    requires |dest| == |ms| && i < |ms|
    requires forall j :: 0 <= j < |fields| && SameName(fields[j].name, ms[i].name) ==> fields[j].val.Null?
    ensures Populate(ms, dest, Obj(fields), filter)[i] == dest[i]
  {
    var x := Lookup(Obj(fields), ms[i].name);
    if x.Some? {
      var k :| 0 <= k < |fields| && SameName(fields[k].name, ms[i].name) && x.value == fields[k].val;
      assert x.value.Null?;
    }
    PopulateFrame(ms, dest, Obj(fields), filter, i);
  }

  // ---------------------------------------------------------------- member pairing

  /**
   * The reference semantics of populating member `m` (currently `d`) from the source member
   * `f` it pairs with: assigned the converted value when the filter admits the member, the
   * value is not null and it converts; otherwise left as it was.
   */
  function Assign(m: Member, d: Field, f: Field, filter: Filter): Field {
    if Admits(filter, m) && !f.val.Null? && Convert(f.val, m.shape).Ok? then Field(d.name, Convert(f.val, m.shape).value)
    else d
  }

  /** Source members named like the destination members, position for position. */
  predicate Aligned(fields: seq<Field>, ms: seq<Member>) {
    |fields| == |ms| && forall i :: 0 <= i < |ms| ==> fields[i].name == ms[i].name
  }

  lemma {:induction false} PopulateAlignedAt(ms: seq<Member>, dest: seq<Field>, fields: seq<Field>, filter: Filter, i: nat)
    requires Aligned(fields, ms) && CaseDistinct(ms) && |dest| == |ms| && i < |ms|
    ensures Populate(ms, dest, Obj(fields), filter)[i] == Assign(ms[i], dest[i], fields[i], filter)
  {
    OnlyMatch(ms, fields, i);
    LookupUnique(fields, ms[i].name, i);
    PopulateFrame(ms, dest, Obj(fields), filter, i);
  }

  /**
   * Pairing is by name alone, not by declaration kind (property or field) or position of
   * other members: populating from an instance whose members carry the destination's names
   * assigns each member from its namesake.
   */
  lemma {:induction false} PopulateAligned(ms: seq<Member>, dest: seq<Field>, fields: seq<Field>, filter: Filter)
    requires Aligned(fields, ms) && CaseDistinct(ms) && |dest| == |ms|
    ensures Populate(ms, dest, Obj(fields), filter) ==
      seq(|ms|, i requires 0 <= i < |ms| => Assign(ms[i], dest[i], fields[i], filter))
  {
    forall i | 0 <= i < |ms|
      ensures Populate(ms, dest, Obj(fields), filter)[i] == Assign(ms[i], dest[i], fields[i], filter)
    {
      PopulateAlignedAt(ms, dest, fields, filter, i);
    }
  }

  /** The value a fresh destination member ends with: the converted source value, or the member type's default. */
  function Converted(m: Member, f: Field): Field {
    Field(m.name, OrDefault(Convert(f.val, m.shape), m.shape))
  }

  /** ConvertTo between composites whose members carry the same names converts member by member. */
  lemma {:induction false} ConvertAligned(fields: seq<Field>, ms: seq<Member>)
    requires Aligned(fields, ms) && CaseDistinct(ms)
    ensures Convert(Obj(fields), Composite(ms)) ==
      Ok(Obj(seq(|ms|, i requires 0 <= i < |ms| => Converted(ms[i], fields[i]))))
  {
    var r := Populate(ms, NewFields(ms), Obj(fields), NoFilter);
    var c := seq(|ms|, i requires 0 <= i < |ms| => Converted(ms[i], fields[i]));
    forall i | 0 <= i < |ms|
      ensures r[i] == c[i]
    {
      PopulateAlignedAt(ms, NewFields(ms), fields, NoFilter, i);
      AssignFresh(ms[i], fields[i]);
    }
    assert r == c;
    ConvertIntoComposite(Obj(fields), ms);
  }

  /** A fresh member populated from its namesake holds the converted value, or its default when there is none. */
  lemma {:induction false} AssignFresh(m: Member, f: Field)
    ensures Assign(m, Field(m.name, DefaultOf(m.shape)), f, NoFilter) == Converted(m, f)
  {
    NullConversion(m.shape);
  }

  /** ConvertAligned for a result known member by member. */
  lemma {:induction false} ConvertAlignedTo(fields: seq<Field>, ms: seq<Member>, expected: seq<Field>)
    requires Aligned(fields, ms) && CaseDistinct(ms) && |expected| == |ms|
    requires forall i :: 0 <= i < |ms| ==> Converted(ms[i], fields[i]) == expected[i]
    ensures Convert(Obj(fields), Composite(ms)) == Ok(Obj(expected))
  {
    ConvertAligned(fields, ms);
    assert seq(|ms|, i requires 0 <= i < |ms| => Converted(ms[i], fields[i])) == expected;
  }

  /** PopulateAligned for a result known member by member. */
  lemma {:induction false} PopulateAlignedTo(ms: seq<Member>, dest: seq<Field>, fields: seq<Field>, filter: Filter, expected: seq<Field>)
    requires Aligned(fields, ms) && CaseDistinct(ms) && |dest| == |ms| && |expected| == |ms|
    requires forall i :: 0 <= i < |ms| ==> Assign(ms[i], dest[i], fields[i], filter) == expected[i]
    ensures Populate(ms, dest, Obj(fields), filter) == expected
  {
    PopulateAligned(ms, dest, fields, filter);
    assert seq(|ms|, i requires 0 <= i < |ms| => Assign(ms[i], dest[i], fields[i], filter)) == expected;
  }

  /**
   * The attribute-filtered populate calls: a member the filter admits is populated exactly as
   * without a filter; every other member keeps the destination's value.
   */
  lemma {:induction false} FilteredPopulate(ms: seq<Member>, dest: seq<Field>, src: Value, filter: Filter)
    requires |dest| == |ms|
    ensures Populate(ms, dest, src, filter) ==
      seq(|ms|, i requires 0 <= i < |ms| => if Admits(filter, ms[i]) then Populate(ms, dest, src, NoFilter)[i] else dest[i])
  {
    forall i | 0 <= i < |ms|
      ensures Populate(ms, dest, src, filter)[i] ==
        if Admits(filter, ms[i]) then Populate(ms, dest, src, NoFilter)[i] else dest[i]
    {
      PopulateFrame(ms, dest, src, filter, i);
      PopulateFrame(ms, dest, src, NoFilter, i);
    }
  }

  // ---------------------------------------------------------------- collections

  /** A list converts element by element, in order, into any collection kind. */
  lemma {:induction false} CollectionOrder(items: seq<Value>, k: CollectionKind, e: Shape)
    ensures Convert(Seq(items), Collection(k, e)).Ok? && Convert(Seq(items), Collection(k, e)).value.Seq?
    ensures |Convert(Seq(items), Collection(k, e)).value.items| == |items|
    ensures forall i :: 0 <= i < |items| ==>
      Convert(Seq(items), Collection(k, e)).value.items[i] == OrDefault(Convert(items[i], e), e)
  {
    ConvertItemsPointwise(items, e);
    assert Convert(Seq(items), Collection(k, e)) == ConvertToCollection(Seq(items), Collection(k, e));
  }

  /** Whether the destination is a sequence, list, array or set does not change what a conversion produces. */
  lemma {:induction false} CollectionKindIrrelevant(v: Value, k1: CollectionKind, k2: CollectionKind, e: Shape)
    ensures Convert(v, Collection(k1, e)).Ok? <==> Convert(v, Collection(k2, e)).Ok?
    ensures Convert(v, Collection(k1, e)).Ok? ==> Convert(v, Collection(k1, e)).value == Convert(v, Collection(k2, e)).value
  {
    if !v.Null? && !v.Str? {
      assert Convert(v, Collection(k1, e)) == ConvertToCollection(v, Collection(k1, e));
      assert Convert(v, Collection(k2, e)) == ConvertToCollection(v, Collection(k2, e));
    }
  }

  /** A list of instances of the element type converts into any collection kind unchanged. */
  lemma {:induction false} CollectionKindChange(items: seq<Value>, k1: CollectionKind, k2: CollectionKind, e: Shape)
    requires WellFormed(e) && Conforms(Seq(items), Collection(k1, e))
    ensures Convert(Seq(items), Collection(k2, e)) == Ok(Seq(items))
  {
    ConvertIdentity(Seq(items), Collection(k2, e));
  }

  /** A canonical numeral is one written item with no enclosing quotes. */
  lemma {:induction false} NumeralPlain(s: string)
    requires CanonicalNumeral(s)
    ensures WholeItem(s) && Unescape(s) == s && s != ""
  {
    assert Plain(s);
    PlainItem(false, s);
  }

  /**
   * A list written as text reads back as the same list, provided every element's text is
   * one written item (no comma outside quotes, quotes balanced) that reads back as the
   * element, and the list is not the single element whose text is empty (which writes as
   * `[]`).
   */
  lemma {:induction false} ListTextRoundTrip(items: seq<Value>, k: CollectionKind, e: Shape)
    requires forall i :: 0 <= i < |items| ==>
      WholeItem(RenderValue(items[i])) && ConvertText(Unescape(RenderValue(items[i])), e) == Ok(items[i])
    requires !(|items| == 1 && RenderValue(items[0]) == "")
    ensures Convert(Seq(items), ScalarStr).Ok?
    ensures Convert(Convert(Seq(items), ScalarStr).value, Collection(k, e)) == Ok(Seq(items))
  {
    var t := ToText(Seq(items));
    ConvertToText(Seq(items));
    ConvertFromText(t, Collection(k, e));
    TextIntoCollection(t, k, e);
    ListTextPieces(items);
    PiecesBack(items, e);
  }

  /** The pieces a written list splits back into are the written elements. */
  lemma {:induction false} ListTextPieces(items: seq<Value>)
    requires forall i :: 0 <= i < |items| ==> WholeItem(RenderValue(items[i]))
    requires !(|items| == 1 && RenderValue(items[0]) == "")
    ensures ListPieces(ToText(Seq(items))) == RenderItems(items)
  {
    var parts := RenderItems(items);
    var body := Join(parts, ',');
    var t := "[" + body + "]";
    assert ToText(Seq(items)) == t;
    assert t[1..|t| - 1] == body;
    if |items| > 0 {
      assert body != "" by {
        if |parts| > 1 {
          assert |body| >= |parts[0] + [',']|;
        }
      }
      SplitItemsJoin(parts);
    }
  }

  /** Written elements that each read back give back the list. */
  lemma {:induction false} PiecesBack(items: seq<Value>, e: Shape)
    requires forall i :: 0 <= i < |items| ==> ConvertText(Unescape(RenderValue(items[i])), e) == Ok(items[i])
    ensures ConvertPieces(RenderItems(items), e) == items
  {
    var r := ConvertPieces(RenderItems(items), e);
    assert forall i :: 0 <= i < |items| ==> r[i] == items[i];
  }

  /** A list of integers in range writes as text and reads back. */
  lemma {:induction false} IntListTextRoundTrip(items: seq<Value>, k: CollectionKind, w: IntWidth)
    requires forall i :: 0 <= i < |items| ==> items[i].Int? && InRange(items[i].i, w)
    ensures Convert(Seq(items), ScalarStr).Ok?
    ensures Convert(Convert(Seq(items), ScalarStr).value, Collection(k, ScalarInt(w))) == Ok(Seq(items))
  {
    forall i | 0 <= i < |items|
      ensures WholeItem(RenderValue(items[i])) && ConvertText(Unescape(RenderValue(items[i])), ScalarInt(w)) == Ok(items[i])
    {
      NumeralPlain(FormatInt(items[i].i));
    }
    if |items| == 1 {
      NumeralPlain(FormatInt(items[0].i));
    }
    ListTextRoundTrip(items, k, ScalarInt(w));
  }

  /**
   * A list of strings writes as text and reads back, commas and quotes inside the strings
   * included, except the list holding only the empty string.
   */
  lemma {:induction false} StrListTextRoundTrip(items: seq<Value>, k: CollectionKind)
    requires forall i :: 0 <= i < |items| ==> items[i].Str?
    requires !(|items| == 1 && items[0].s == "")
    ensures Convert(Seq(items), ScalarStr).Ok?
    ensures Convert(Convert(Seq(items), ScalarStr).value, Collection(k, ScalarStr)) == Ok(Seq(items))
  {
    forall i | 0 <= i < |items|
      ensures WholeItem(RenderValue(items[i])) && ConvertText(Unescape(RenderValue(items[i])), ScalarStr) == Ok(items[i])
    {
      var s := items[i].s;
      EscapeWhole(s);
      UnescapeEscape(s);
    }
    ListTextRoundTrip(items, k, ScalarStr);
  }

  // ---------------------------------------------------------------- dictionaries

  /** A dictionary or pair list converts entry by entry into any mapping destination. */
  lemma {:induction false} MappingConvert(entries: seq<Entry>, kind: MappingKind, ks: Shape, vs: Shape)
    ensures Convert(Map(entries), Mapping(kind, ks, vs)) == Ok(Map(Build(kind, ConvertPairs(entries, ks, vs))))
  {
    var v, d := Map(entries), Mapping(kind, ks, vs);
    assert Convert(v, d) == ConvertToMapping(v, d);
    assert ConvertToMapping(v, d).value.entries == Build(kind, ConvertPairs(entries, ks, vs));
  }

  /** Both the key (to a non-null value) and the value of an entry convert. */
  predicate EntryConverts(x: Entry, ks: Shape, vs: Shape) {
    Convert(x.key, ks).Ok? && !Convert(x.key, ks).value.Null? && Convert(x.val, vs).Ok?
  }

  /** The entry with its key and its value each converted. */
  function ConvertEntry(x: Entry, ks: Shape, vs: Shape): Entry
    requires EntryConverts(x, ks, vs)
  {
    Entry(Convert(x.key, ks).value, Convert(x.val, vs).value)
  }

  /** Every entry converts: each key and each value is converted on its own, in order, and none is dropped. */
  lemma {:induction false} ConvertPairsPointwise(entries: seq<Entry>, ks: Shape, vs: Shape)
    requires forall i :: 0 <= i < |entries| ==> EntryConverts(entries[i], ks, vs)
    ensures |ConvertPairs(entries, ks, vs)| == |entries|
    ensures forall i :: 0 <= i < |entries| ==>
      ConvertPairs(entries, ks, vs)[i] == ConvertEntry(entries[i], ks, vs)
  {
    ConvertPairsLength(entries, ks, vs);
    forall i | 0 <= i < |entries|
      ensures ConvertPairs(entries, ks, vs)[i] == ConvertEntry(entries[i], ks, vs)
    {
      ConvertPairsAt(entries, ks, vs, i);
    }
  }

  lemma {:induction false} ConvertPairsLength(entries: seq<Entry>, ks: Shape, vs: Shape)
    requires forall i :: 0 <= i < |entries| ==> EntryConverts(entries[i], ks, vs)
    ensures |ConvertPairs(entries, ks, vs)| == |entries|
  {
    if |entries| > 0 {
      var tail := entries[1..];
      assert forall i :: 0 <= i < |tail| ==> tail[i] == entries[i + 1];
      ConvertPairsLength(tail, ks, vs);
      PairsCons(entries, ks, vs);
    }
  }

  lemma {:induction false} ConvertPairsAt(entries: seq<Entry>, ks: Shape, vs: Shape, i: nat)
    requires forall j :: 0 <= j < |entries| ==> EntryConverts(entries[j], ks, vs)
    requires i < |entries|
    ensures i < |ConvertPairs(entries, ks, vs)|
    ensures ConvertPairs(entries, ks, vs)[i] == ConvertEntry(entries[i], ks, vs)
  {
    var tail := entries[1..];
    PairsCons(entries, ks, vs);
    if i > 0 {
      assert forall j :: 0 <= j < |tail| ==> tail[j] == entries[j + 1];
      ConvertPairsAt(tail, ks, vs, i - 1);
      assert tail[i - 1] == entries[i];
    }
  }

  /** An entry whose key and value both convert heads the converted entries. */
  lemma {:induction false} PairsCons(entries: seq<Entry>, ks: Shape, vs: Shape)
    requires |entries| > 0 && EntryConverts(entries[0], ks, vs)
    ensures ConvertPairs(entries, ks, vs) == [ConvertEntry(entries[0], ks, vs)] + ConvertPairs(entries[1..], ks, vs)
  {
  }

  /** An entry whose key or value does not convert, or whose key converts to null, is skipped; the later entries still convert. */
  lemma {:induction false} PairsSkip(entries: seq<Entry>, ks: Shape, vs: Shape)
    requires |entries| > 0 && !EntryConverts(entries[0], ks, vs)
    ensures ConvertPairs(entries, ks, vs) == ConvertPairs(entries[1..], ks, vs)
  {
  }

  /** The entries that convert, in entry order. */
  function ConvertibleEntries(entries: seq<Entry>, ks: Shape, vs: Shape): (r: seq<Entry>)
    ensures forall x :: x in r <==> x in entries && EntryConverts(x, ks, vs)
  {
    if |entries| == 0 then []
    else if EntryConverts(entries[0], ks, vs) then [entries[0]] + ConvertibleEntries(entries[1..], ks, vs)
    else ConvertibleEntries(entries[1..], ks, vs)
  }

  /** Every entry converted, in entry order. */
  function ConvertEach(entries: seq<Entry>, ks: Shape, vs: Shape): (r: seq<Entry>)
    requires forall x :: x in entries ==> EntryConverts(x, ks, vs)
    ensures |r| == |entries|
    ensures forall i :: 0 <= i < |entries| ==> r[i] == ConvertEntry(entries[i], ks, vs)
  {
    if |entries| == 0 then []
    else [ConvertEntry(entries[0], ks, vs)] + ConvertEach(entries[1..], ks, vs)
  }

  /**
   * Entry-wise conversion keeps exactly the entries that convert, in order, each converted:
   * an entry that fails drops only itself, whatever comes before or after it.
   */
  lemma {:induction false} ConvertPairsFiltered(entries: seq<Entry>, ks: Shape, vs: Shape)
    ensures ConvertPairs(entries, ks, vs) == ConvertEach(ConvertibleEntries(entries, ks, vs), ks, vs)
  {
    if |entries| > 0 {
      var rest := ConvertibleEntries(entries[1..], ks, vs);
      ConvertPairsFiltered(entries[1..], ks, vs);
      if EntryConverts(entries[0], ks, vs) {
        PairsCons(entries, ks, vs);
        assert ([entries[0]] + rest)[1..] == rest;
      } else {
        PairsSkip(entries, ks, vs);
      }
    }
  }

  /** A dictionary or pair list with any number of failing entries converts as the mapping built from the entries that convert. */
  lemma {:induction false} MappingConvertFiltered(entries: seq<Entry>, kind: MappingKind, ks: Shape, vs: Shape)
    ensures Convert(Map(entries), Mapping(kind, ks, vs)) ==
      Ok(Map(Build(kind, ConvertEach(ConvertibleEntries(entries, ks, vs), ks, vs))))
  {
    MappingConvert(entries, kind, ks, vs);
    ConvertPairsFiltered(entries, ks, vs);
  }

  /** A one-entry dictionary or pair list converts into any mapping as its one entry, key and value converted. */
  lemma {:induction false} SingleEntryConvert(x: Entry, kind: MappingKind, ks: Shape, vs: Shape)
    requires EntryConverts(x, ks, vs)
    ensures Convert(Map([x]), Mapping(kind, ks, vs)) == Ok(Map([ConvertEntry(x, ks, vs)]))
  {
    var e := ConvertEntry(x, ks, vs);
    MappingConvert([x], kind, ks, vs);
    PairsCons([x], ks, vs);
    assert [x][1..] == [];
    assert ConvertPairs([x], ks, vs) == [e];
    DedupeDistinct([e]);
    assert Build(kind, [e]) == [e];
  }

  /** A one-entry dictionary whose key or value does not convert, or whose key converts to null, converts to an empty one. */
  lemma {:induction false} SingleEntryDropped(x: Entry, kind: MappingKind, ks: Shape, vs: Shape)
    requires !EntryConverts(x, ks, vs)
    ensures Convert(Map([x]), Mapping(kind, ks, vs)) == Ok(Map([]))
  {
    MappingConvert([x], kind, ks, vs);
    assert [x][1..] == [];
  }

  /**
   * A dictionary's entries survive a trip through a list of key/value pairs and back: the
   * conversion into either kind keeps every entry, in order.
   */
  lemma {:induction false} MappingKindRoundTrip(entries: seq<Entry>, ks: Shape, vs: Shape)
    requires WellFormed(ks) && WellFormed(vs) && Conforms(Map(entries), Mapping(Dictionary, ks, vs))
    ensures Convert(Map(entries), Mapping(PairList, ks, vs)) == Ok(Map(entries))
    ensures Convert(Map(entries), Mapping(Dictionary, ks, vs)) == Ok(Map(entries))
  {
    ConvertIdentity(Map(entries), Mapping(PairList, ks, vs));
    ConvertIdentity(Map(entries), Mapping(Dictionary, ks, vs));
  }
}
