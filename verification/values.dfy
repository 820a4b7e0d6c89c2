/**
 * The data the conversion engine works on. A `Value` is a runtime instance; a `Shape`
 * is the classified destination type (scalar, nullable scalar, enum, ordered
 * collection, keyed mapping, composite, or the unconstrained `object`). Composite
 * members are an ordered list of name, declared shape and attribute tags: the
 * engine never sees reflection, only this list.
 */
module Values {
  import opened Outcomes
  import opened Text
  import opened Calendar
  import opened Guids
  import opened Enums

  /** Width of an integer member: `int` or `long`. */
  datatype IntWidth = Int32 | Int64

  function MinInt(w: IntWidth): int {
    match w
    case Int32 => -0x8000_0000
    case Int64 => -0x8000_0000_0000_0000
  }

  function MaxInt(w: IntWidth): int {
    match w
    case Int32 => 0x7FFF_FFFF
    case Int64 => 0x7FFF_FFFF_FFFF_FFFF
  }

  predicate InRange(i: int, w: IntWidth) {
    MinInt(w) <= i <= MaxInt(w)
  }

  /** A runtime value. A boxed enum carries its enumeration type, as a .NET boxed enum does. */
  datatype Value =
    | Null
    | Int(i: int)
    | Str(s: string)
    | Bool(b: bool)
    | EnumV(decl: EnumDecl, ordinal: int)
    | Date(date: CalendarDate)
    | Guid(digits: GuidDigits)
    | Seq(items: seq<Value>)
    | Map(entries: seq<Entry>)
    | Obj(fields: seq<Field>)

  /** One key/value pair of a dictionary or of a list of key/value pairs. */
  datatype Entry = Entry(key: Value, val: Value)

  /** One member of a composite instance, in declaration order. */
  datatype Field = Field(name: string, val: Value)

  /** The container a collection shape names; element order and conversion do not depend on it. */
  datatype CollectionKind = Enumerable | List | Array | HashSet

  /** A native dictionary, a list of key/value pairs, or the loosely typed string-to-object dictionary. */
  datatype MappingKind = Dictionary | PairList | ObjectDictionary

  /** Whether a member is declared as a property or as a field; matching ignores the difference. */
  datatype MemberKind = PropertyMember | FieldMember

  /** A member descriptor: name, declaration kind, declared shape and the names of its attributes. */
  datatype Member = Member(name: string, kind: MemberKind, shape: Shape, tags: set<string>)

  datatype Shape =
    | ScalarInt(width: IntWidth)
    | ScalarStr
    | ScalarBool
    | ScalarDate
    | ScalarGuid
    | Nullable(inner: Shape)
    | Enum(decl: EnumDecl)
    | Collection(ckind: CollectionKind, elem: Shape)
    | Mapping(mkind: MappingKind, key: Shape, value: Shape)
    | Composite(members: seq<Member>)
    | Any

  /** Attribute filter of a populate call, tested against the destination member's tags. */
  datatype Filter = NoFilter | Require(tag: string) | Exclude(tag: string)

  predicate Admits(f: Filter, m: Member) {
    match f
    case NoFilter => true
    case Require(t) => t in m.tags
    case Exclude(t) => t !in m.tags
  }

  /** Shapes whose instances may be null: reference types, `Nullable<T>` and `object`. */
  predicate AdmitsNull(s: Shape) {
    s.ScalarStr? || s.Nullable? || s.Collection? || s.Mapping? || s.Composite? || s.Any?
  }

  /** Value types, the only shapes `Nullable<T>` may wrap. */
  predicate IsValueType(s: Shape) {
    s.ScalarInt? || s.ScalarBool? || s.ScalarDate? || s.ScalarGuid? || s.Enum?
  }

  /** `default(T)`: zero for value types, null for everything else. */
  function DefaultOf(s: Shape): (r: Value)
    ensures Conforms(r, s)
    ensures r.Null? <==> AdmitsNull(s)
  {
    match s
    case ScalarInt(_) => Int(0)
    case ScalarBool => Bool(false)
    case ScalarDate => Date(MinDate)
    case ScalarGuid => Guid(EmptyGuid())
    case Enum(d) => EnumV(d, 0)
    case _ => Null
  }

  predicate DistinctKeys(entries: seq<Entry>) {
    forall i, j :: 0 <= i < j < |entries| ==> entries[i].key != entries[j].key
  }

  /** `v` is an instance of the type `s` describes. */
  predicate Conforms(v: Value, s: Shape)
    decreases v, s
  {
    if s.Any? then true
    else if s.Nullable? then v.Null? || Conforms(v, s.inner)
    else
      match v
      case Null => AdmitsNull(s)
      case Int(i) => s.ScalarInt? && InRange(i, s.width)
      case Str(_) => s.ScalarStr?
      case Bool(_) => s.ScalarBool?
      case EnumV(d, o) => s == Enum(d) && InRange(o, Int32)
      case Date(_) => s.ScalarDate?
      case Guid(_) => s.ScalarGuid?
      case Seq(items) =>
        (match s
         case Collection(_, e) => forall i :: 0 <= i < |items| ==> Conforms(items[i], e)
         case _ => false)
      case Map(entries) =>
        (match s
         case Mapping(kind, ks, vs) =>
           && (forall i :: 0 <= i < |entries| ==>
                 !entries[i].key.Null? && Conforms(entries[i].key, ks) && Conforms(entries[i].val, vs))
           && (kind != PairList ==> DistinctKeys(entries))
         case _ => false)
      case Obj(fields) =>
        match s
        case Composite(ms) => FieldsConform(fields, ms)
        case _ => false
  }

  /** The members of a composite instance line up with the declared members and hold values of their shapes. */
  predicate FieldsConform(fields: seq<Field>, ms: seq<Member>)
    decreases fields
  {
    && |fields| == |ms|
    && forall i :: 0 <= i < |fields| ==> fields[i].name == ms[i].name && Conforms(fields[i].val, ms[i].shape)
  }

  /** Member names differ even ignoring case, so case-insensitive pairing is unambiguous (an assumption, not a C# rule). */
  predicate CaseDistinct(ms: seq<Member>) {
    forall i, j :: 0 <= i < j < |ms| ==> !SameName(ms[i].name, ms[j].name)
  }

  /**
   * The C# rules the datatypes cannot express: `Nullable<T>` wraps a value type (its
   * `where T : struct` constraint), an enum declares each name once (a duplicate is a compile
   * error), and the loosely typed dictionary maps strings to objects (its own declaration).
   * Plus one assumption beyond C#: a composite's member names differ even ignoring case, so
   * that case-insensitive matching is unambiguous (C# itself accepts both `Name` and `name`
   * in one class).
   */
  predicate WellFormed(s: Shape)
    decreases s
  {
    match s
    case Nullable(inner) => IsValueType(inner) && WellFormed(inner)
    case Enum(d) => DistinctNames(d.names)
    case Collection(_, e) => WellFormed(e)
    case Mapping(kind, k, v) => (kind == ObjectDictionary ==> k == ScalarStr && v == Any) && WellFormed(k) && WellFormed(v)
    case Composite(ms) =>
      && CaseDistinct(ms)
      && (forall i :: 0 <= i < |ms| ==> WellFormed(ms[i].shape))
    case _ => true
  }

  /** Number of constructors in a value; every nested value is strictly smaller than its container. */
  function Size(v: Value): (n: nat)
    ensures n >= 1
  {
    match v
    case Seq(items) => 1 + ItemsSize(items)
    case Map(entries) => 1 + EntriesSize(entries)
    case Obj(fields) => 1 + FieldsSize(fields)
    case _ => 1
  }

  function ItemsSize(items: seq<Value>): nat {
    if |items| == 0 then 0 else Size(items[0]) + ItemsSize(items[1..])
  }

  function EntrySize(e: Entry): nat {
    Size(e.key) + Size(e.val)
  }

  function EntriesSize(entries: seq<Entry>): nat {
    if |entries| == 0 then 0 else EntrySize(entries[0]) + EntriesSize(entries[1..])
  }

  function FieldsSize(fields: seq<Field>): nat {
    if |fields| == 0 then 0 else 1 + Size(fields[0].val) + FieldsSize(fields[1..])
  }

  /** Nesting depth of the wrappers a conversion may descend through without consuming the value. */
  function ShapeSize(s: Shape): nat {
    match s
    case Nullable(inner) => 1 + ShapeSize(inner)
    case Collection(_, e) => 1 + ShapeSize(e)
    case _ => 1
  }

  lemma {:induction false} EntrySizeBound(entries: seq<Entry>, i: nat)
    requires i < |entries|
    ensures Size(entries[i].key) < EntriesSize(entries) && Size(entries[i].val) < EntriesSize(entries)
  {
    assert EntriesSize(entries) == Size(entries[0].key) + Size(entries[0].val) + EntriesSize(entries[1..]);
    if i > 0 {
      assert entries[1..][i - 1] == entries[i];
      EntrySizeBound(entries[1..], i - 1);
    }
  }

  lemma {:induction false} FieldSizeBound(fields: seq<Field>, i: nat)
    requires i < |fields|
    ensures Size(fields[i].val) < FieldsSize(fields)
  {
    if i > 0 {
      FieldSizeBound(fields[1..], i - 1);
    }
  }

  lemma {:induction false} ItemSizeBound(items: seq<Value>, i: nat)
    requires i < |items|
    ensures Size(items[i]) <= ItemsSize(items)
  {
    if i > 0 {
      ItemSizeBound(items[1..], i - 1);
    }
  }
}
