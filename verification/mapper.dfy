/**
 * The conversion engine: `ConvertTo` (a value into a destination shape), `PopulateWith`
 * and its attribute-filtered variants (a source's members into an existing destination
 * instance), the collection and dictionary translations they recurse through, and the
 * object-dictionary view of a composite.
 *
 * Whole-value conversions report an `Error`; failures nested inside a composite member,
 * a collection element or a dictionary entry are contained: the member keeps its value,
 * the element slot takes the element type's default, the entry is dropped.
 */
module Mapper {
  import opened Outcomes
  import opened Text
  import opened Calendar
  import opened Guids
  import opened Enums
  import opened Values
  import opened Render
  import opened Keyed

  datatype Error =
    | Incompatible(source: Value, dest: Shape)
    | Unparsable(text: string, dest: Shape)
    | Overflow(n: int, dest: Shape)

  /** `ObjectDictionary`: string keys, values of any type. */
  const ObjectDictionaryShape: Shape := Mapping(ObjectDictionary, ScalarStr, Any)

  /** Boolean text, case-insensitive: exactly the written booleans, in any case. */
  function ParseBool(s: string): (r: Option<bool>)
    ensures forall b: bool :: r == Some(b) <==> ToLower(s) == BoolText(b)
  {
    assert ToLower("true") == BoolText(true) && ToLower("false") == BoolText(false);
    if SameName(s, "true") then Some(true)
    else if SameName(s, "false") then Some(false)
    else None
  }

  /** The text between the square brackets of a list, or the whole text when it has none. */
  function ListBody(s: string): string {
    if |s| >= 2 && s[0] == '[' && s[|s| - 1] == ']' then s[1..|s| - 1] else s
  }

  /**
   * The comma-separated items of a list text; a comma inside a quoted item does not
   * separate. An empty body has no items.
   */
  function ListPieces(s: string): (r: seq<string>)
    ensures ListBody(s) == "" ==> r == []
    ensures ListBody(s) != "" ==> Join(r, ',') == ListBody(s)
    ensures forall i :: 0 <= i < |r| ==> ItemLength(false, r[i]) == |r[i]|
    ensures forall i :: 0 <= i < |r| - 1 ==> !QuotedAfter(false, r[i])
  {
    var b := ListBody(s);
    if b == "" then [] else SplitItems(b)
  }

  /** Text into a destination type: parsing scalars, splitting lists. */
  function ConvertText(s: string, dest: Shape): (r: Result<Value, Error>)
    ensures r.Ok? ==> Conforms(r.value, dest)
    decreases dest, 0
  {
    match dest
    case Any => Ok(Str(s))
    case ScalarStr => Ok(Str(s))
    case ScalarInt(w) =>
      (match ParseInt(s)
       case Some(i) => if InRange(i, w) then Ok(Int(i)) else Err(Overflow(i, dest))
       case None => Err(Unparsable(s, dest)))
    case ScalarBool =>
      (match ParseBool(s)
       case Some(b) => Ok(Bool(b))
       case None => Err(Unparsable(s, dest)))
    case ScalarDate =>
      (match ParseDate(s)
       case Some(d) => Ok(Date(d))
       case None => Err(Unparsable(s, dest)))
    case ScalarGuid =>
      (match ParseGuid(s)
       case Some(g) => Ok(Guid(g))
       case None => Err(Unparsable(s, dest)))
    case Enum(d) =>
      var o := EnumFromText(d, s);
      if InRange(o, Int32) then Ok(EnumV(d, o)) else Err(Overflow(o, dest))
    case Nullable(inner) => ConvertText(s, inner)
    case Collection(_, e) => Ok(Seq(ConvertPieces(ListPieces(s), e)))
    case Mapping(_, _, _) => Err(Incompatible(Str(s), dest))
    case Composite(_) => Err(Incompatible(Str(s), dest))
  }

  /** A contained failure: the converted value, or the destination type's default when conversion failed. */
  function OrDefault(r: Result<Value, Error>, s: Shape): Value {
    match r
    case Ok(x) => x
    case Err(_) => DefaultOf(s)
  }

  /** Each list item read as an element; an item that does not convert leaves the element's default. */
  function ConvertPieces(pieces: seq<string>, e: Shape): (r: seq<Value>)
    ensures |r| == |pieces|
    ensures forall i :: 0 <= i < |r| ==> Conforms(r[i], e)
    ensures forall i :: 0 <= i < |r| ==> r[i] == OrDefault(ConvertText(Unescape(pieces[i]), e), e)
    decreases e, |pieces| + 1
  {
    if |pieces| == 0 then []
    else
      var head := ConvertText(Unescape(pieces[0]), e);
      OrDefaultConforms(head, e);
      var rest := ConvertPieces(pieces[1..], e);
      var r := [OrDefault(head, e)] + rest;
      assert forall i :: 1 <= i < |r| ==> r[i] == rest[i - 1] && pieces[i] == pieces[1..][i - 1];
      r
  }

  lemma {:induction false} OrDefaultConforms(r: Result<Value, Error>, s: Shape)
    requires r.Ok? ==> Conforms(r.value, s)
    ensures Conforms(OrDefault(r, s), s)
  {
  }

  /** Conversion between value-type scalars: integers, enums, booleans, dates, guids. */
  function CoerceScalar(v: Value, dest: Shape): (r: Result<Value, Error>)
    ensures r.Ok? ==> Conforms(r.value, dest)
  {
    match dest
    case ScalarInt(w) =>
      if v.Int? then (if InRange(v.i, w) then Ok(v) else Err(Overflow(v.i, dest)))
      else if v.EnumV? then (if InRange(v.ordinal, w) then Ok(Int(v.ordinal)) else Err(Overflow(v.ordinal, dest)))
      else Err(Incompatible(v, dest))
    case Enum(d) =>
      if v.Int? then (if InRange(v.i, Int32) then Ok(EnumV(d, v.i)) else Err(Overflow(v.i, dest)))
      else if v.EnumV? then
        (if v.decl == d then (if InRange(v.ordinal, Int32) then Ok(v) else Err(Overflow(v.ordinal, dest)))
         else
           var o := EnumAcross(v.decl, v.ordinal, d);
           if InRange(o, Int32) then Ok(EnumV(d, o)) else Err(Overflow(o, dest)))
      else Err(Incompatible(v, dest))
    case ScalarBool => if v.Bool? then Ok(v) else Err(Incompatible(v, dest))
    case ScalarDate => if v.Date? then Ok(v) else Err(Incompatible(v, dest))
    case ScalarGuid => if v.Guid? then Ok(v) else Err(Incompatible(v, dest))
    case _ => Err(Incompatible(v, dest))
  }

  /** A freshly constructed instance of a composite: every member at its type's default. */
  function NewFields(ms: seq<Member>): (r: seq<Field>)
    ensures FieldsConform(r, ms)
    ensures forall i :: 0 <= i < |ms| ==> r[i].val == DefaultOf(ms[i].shape)
  {
    seq(|ms|, i requires 0 <= i < |ms| => Field(ms[i].name, DefaultOf(ms[i].shape)))
  }

  /** Entries as a destination mapping holds them: kept as listed for a pair list, assigned by key otherwise. */
  function Build(kind: MappingKind, pairs: seq<Entry>): (r: seq<Entry>)
    ensures kind == PairList ==> r == pairs
    ensures kind != PairList ==> DistinctKeys(r) && forall k :: Find(r, k) == LastValue(pairs, k)
    ensures forall x :: x in r ==> x in pairs
  {
    if kind == PairList then pairs else Dedupe(pairs)
  }

  /**
   * ConvertTo: `v` as an instance of `dest`. The unconstrained destination takes the value
   * as it is; null becomes the destination's default; a present value is unwrapped into a
   * nullable destination; anything converts into a string through its text form; text is
   * parsed; a one-element list collapses into a scalar or composite destination; a single
   * value is wrapped into a one-element collection.
   */
  function Convert(v: Value, dest: Shape): (r: Result<Value, Error>)
    ensures r.Ok? ==> Conforms(r.value, dest)
    decreases Size(v), ShapeSize(dest), 2
  {
    if dest.Any? then Ok(v)
    else if v.Null? then Ok(DefaultOf(dest))
    else if dest.Nullable? then Convert(v, dest.inner)
    else if dest.ScalarStr? then Ok(Str(ToText(v)))
    else if v.Str? then ConvertText(v.s, dest)
    else if dest.Collection? then ConvertToCollection(v, dest)
    else if dest.Mapping? then ConvertToMapping(v, dest)
    else if v.Seq? && |v.items| == 1 then
      ItemSizeBound(v.items, 0);
      Convert(v.items[0], dest)
    else if dest.Composite? then ConvertToComposite(v, dest)
    else CoerceScalar(v, dest)
  }

  /** A list converts element-wise; a dictionary does not convert; any other value becomes a one-element list. */
  function ConvertToCollection(v: Value, dest: Shape): (r: Result<Value, Error>)
    requires dest.Collection?
    ensures r.Ok? ==> Conforms(r.value, dest)
    decreases Size(v), ShapeSize(dest), 1
  {
    if v.Seq? then Ok(Seq(ConvertItems(v.items, dest.elem)))
    else if v.Map? then Err(Incompatible(v, dest))
    else
      match Convert(v, dest.elem)
      case Ok(x) => Ok(Seq([x]))
      case Err(e) => Err(e)
  }

  /** A dictionary, pair list or composite converts entry-wise into the destination mapping. */
  function ConvertToMapping(v: Value, dest: Shape): (r: Result<Value, Error>)
    requires dest.Mapping?
    ensures r.Ok? ==> Conforms(r.value, dest)
    decreases Size(v), ShapeSize(dest), 1
  {
    if v.Map? || v.Obj? then
      var source := if v.Map? then v.entries else ObjectEntries(v.fields);
      var pairs := ConvertPairs(source, dest.key, dest.value);
      BuildConforms(dest.mkind, pairs, dest.key, dest.value);
      Ok(Map(Build(dest.mkind, pairs)))
    else Err(Incompatible(v, dest))
  }

  /** Entries of the right key and value types make a conforming mapping, however they are built. */
  lemma {:induction false} BuildConforms(kind: MappingKind, pairs: seq<Entry>, ks: Shape, vs: Shape)
    requires forall x :: x in pairs ==> !x.key.Null? && Conforms(x.key, ks) && Conforms(x.val, vs)
    ensures Conforms(Map(Build(kind, pairs)), Mapping(kind, ks, vs))
  {
    var r := Build(kind, pairs);
    forall i | 0 <= i < |r|
      ensures !r[i].key.Null? && Conforms(r[i].key, ks) && Conforms(r[i].val, vs)
    {
      assert r[i] in r;
    }
  }

  /** A composite or dictionary source populates a fresh destination instance member by member. */
  function ConvertToComposite(v: Value, dest: Shape): (r: Result<Value, Error>)
    requires dest.Composite?
    ensures r.Ok? ==> Conforms(r.value, dest)
    decreases Size(v), ShapeSize(dest), 1
  {
    if v.Obj? || v.Map? then Ok(Obj(Populate(dest.members, NewFields(dest.members), v, NoFilter)))
    else Err(Incompatible(v, dest))
  }

  /** Element-wise conversion, in order; an element that does not convert leaves the element's default. */
  function ConvertItems(items: seq<Value>, e: Shape): (r: seq<Value>)
    ensures |r| == |items|
    ensures forall i :: 0 <= i < |r| ==> Conforms(r[i], e)
    decreases ItemsSize(items), ShapeSize(e), 3
  {
    if |items| == 0 then []
    else [OrDefault(Convert(items[0], e), e)] + ConvertItems(items[1..], e)
  }

  /** Element `i` of the result is element `i` of the source, converted (or the default); nothing is reordered. */
  lemma {:induction false} ConvertItemsPointwise(items: seq<Value>, e: Shape)
    ensures forall i :: 0 <= i < |items| ==> ConvertItems(items, e)[i] == OrDefault(Convert(items[i], e), e)
  {
    if |items| > 0 {
      ConvertItemsPointwise(items[1..], e);
      var r := ConvertItems(items, e);
      forall i | 1 <= i < |items|
        ensures r[i] == OrDefault(Convert(items[i], e), e)
      {
        assert r[i] == ConvertItems(items[1..], e)[i - 1];
        assert items[i] == items[1..][i - 1];
      }
    }
  }

  /** Key- and value-wise conversion, in order; an entry whose key or value does not convert, or whose key is null, is dropped. */
  function ConvertPairs(entries: seq<Entry>, ks: Shape, vs: Shape): (r: seq<Entry>)
    ensures |r| <= |entries|
    ensures forall x :: x in r ==> !x.key.Null? && Conforms(x.key, ks) && Conforms(x.val, vs)
    decreases EntriesSize(entries), 0, 0
  {
    if |entries| == 0 then []
    else
      assert EntriesSize(entries) == Size(entries[0].key) + Size(entries[0].val) + EntriesSize(entries[1..]);
      var rest := ConvertPairs(entries[1..], ks, vs);
      var k := Convert(entries[0].key, ks);
      var x := Convert(entries[0].val, vs);
      if k.Ok? && x.Ok? && !k.value.Null? then [Entry(k.value, x.value)] + rest else rest
  }

  /**
   * The value a destination member receives from `src`: the converted value of the matching
   * source member, or nothing when there is no match, the source value is null, or it does
   * not convert.
   */
  function Incoming(m: Member, src: Value): (r: Option<Value>)
    ensures r.Some? ==> Conforms(r.value, m.shape)
    decreases Size(src), 0, 0
  {
    match Lookup(src, m.name)
    case None => None
    case Some(x) =>
      if x.Null? then None
      else
        match Convert(x, m.shape)
        case Ok(y) => Some(y)
        case Err(_) => None
  }

  /**
   * One destination member after PopulateWith: when the filter admits it and `src` has a value
   * for it, that value; otherwise the member as it was.
   */
  function PopulateMember(m: Member, d: Field, src: Value, filter: Filter): (r: Field)
    ensures r.name == d.name
    ensures !Admits(filter, m) || Incoming(m, src).None? ==> r == d
    ensures Admits(filter, m) && Incoming(m, src).Some? ==> r.val == Incoming(m, src).value
    ensures Conforms(d.val, m.shape) ==> Conforms(r.val, m.shape)
    decreases Size(src), 0, 1
  {
    if Admits(filter, m) then
      match Incoming(m, src)
      case Some(x) => Field(d.name, x)
      case None => d
    else d
  }

  /**
   * PopulateWith: each destination member the filter admits takes its incoming value from
   * `src`; every other member keeps its value.
   */
  function Populate(ms: seq<Member>, dest: seq<Field>, src: Value, filter: Filter): (r: seq<Field>)
    requires |dest| == |ms|
    ensures |r| == |ms|
    ensures forall i :: 0 <= i < |ms| ==> r[i] == PopulateMember(ms[i], dest[i], src, filter)
    ensures FieldsConform(dest, ms) ==> FieldsConform(r, ms)
    decreases Size(src), 0, |ms| + 1
  {
    if |ms| == 0 then []
    else
      var rest := Populate(ms[1..], dest[1..], src, filter);
      var r := [PopulateMember(ms[0], dest[0], src, filter)] + rest;
      assert forall i :: 1 <= i < |ms| ==> r[i] == rest[i - 1] && ms[i] == ms[1..][i - 1] && dest[i] == dest[1..][i - 1];
      r
  }

  /** What PopulateWith promises of member `i`: name kept, untouched when filtered out or unmatched, assigned otherwise. */
  lemma {:induction false} PopulateFrame(ms: seq<Member>, dest: seq<Field>, src: Value, filter: Filter, i: nat)
    requires |dest| == |ms| && i < |ms|
    ensures Populate(ms, dest, src, filter)[i].name == dest[i].name
    ensures !Admits(filter, ms[i]) ==> Populate(ms, dest, src, filter)[i] == dest[i]
    ensures Incoming(ms[i], src).None? ==> Populate(ms, dest, src, filter)[i] == dest[i]
    ensures Admits(filter, ms[i]) && Incoming(ms[i], src).Some? ==>
      Populate(ms, dest, src, filter)[i].val == Incoming(ms[i], src).value
  {
    assert Populate(ms, dest, src, filter)[i] == PopulateMember(ms[i], dest[i], src, filter);
  }

  /** ToObjectDictionary: the string-to-object dictionary view of a value. */
  function ToObjectDictionary(v: Value): (r: Result<Value, Error>)
    ensures v.Obj? || v.Map? ==>
      r.Ok? && r.value.Map? && forall i :: 0 <= i < |r.value.entries| ==> r.value.entries[i].key.Str?
  {
    var r := Convert(v, ObjectDictionaryShape);
    assert v.Obj? || v.Map? ==> r == ConvertToMapping(v, ObjectDictionaryShape);
    if r.Ok? && r.value.Map? then ObjectDictionaryKeys(r.value); r else r
  }

  lemma {:induction false} ObjectDictionaryKeys(x: Value)
    requires x.Map? && Conforms(x, ObjectDictionaryShape)
    ensures forall i :: 0 <= i < |x.entries| ==> x.entries[i].key.Str?
  {
    forall i | 0 <= i < |x.entries|
      ensures x.entries[i].key.Str?
    {
      assert !x.entries[i].key.Null? && Conforms(x.entries[i].key, ScalarStr);
    }
  }

  /** FromObjectDictionary: a fresh instance of the composite `ms` populated from a string-to-object dictionary. */
  function FromObjectDictionary(entries: seq<Entry>, ms: seq<Member>): (r: seq<Field>)
    ensures FieldsConform(r, ms)
  {
    Populate(ms, NewFields(ms), Map(entries), NoFilter)
  }
}
