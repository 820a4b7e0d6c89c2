/**
 * Converting a value into a type it already belongs to gives the value back. Because a
 * composite's conformance speaks only of member names and shapes, this also covers
 * conversion between a type with properties and one with fields of the same names, and
 * between a derived type and its base.
 */
module Identity {
  import opened Outcomes
  import opened Text
  import opened Values
  import opened Keyed
  import opened Mapper

  /** A source member that is the only one matching `name` is the one paired with it. */
  lemma {:induction false} LookupUnique(fields: seq<Field>, name: string, i: nat)
    requires i < |fields| && SameName(fields[i].name, name)
    requires forall j :: 0 <= j < |fields| && j != i ==> !SameName(fields[j].name, name)
    ensures Lookup(Obj(fields), name) == Some(fields[i].val)
  {
    var r := Lookup(Obj(fields), name);
    assert r.Some?;
    var k :| 0 <= k < |fields| && SameName(fields[k].name, name) && r.value == fields[k].val;
    assert k == i;
  }

  /** Conversion of a composite or dictionary source into a composite destination populates a fresh instance. */
  lemma {:induction false} ConvertIntoComposite(v: Value, ms: seq<Member>)
    requires v.Obj? || v.Map?
    ensures Convert(v, Composite(ms)) == Ok(Obj(Populate(ms, NewFields(ms), v, NoFilter)))
  {
    assert Convert(v, Composite(ms)) == ConvertToComposite(v, Composite(ms));
  }

  /** Conversion of a composite into a mapping destination converts its member entries. */
  lemma {:induction false} ConvertObjectIntoMapping(fields: seq<Field>, dest: Shape)
    requires dest.Mapping?
    ensures Convert(Obj(fields), dest) ==
      Ok(Map(Build(dest.mkind, ConvertPairs(ObjectEntries(fields), dest.key, dest.value))))
  {
    assert Convert(Obj(fields), dest) == ConvertToMapping(Obj(fields), dest);
  }

  /** A value already of the destination type converts to itself. */
  lemma {:induction false} ConvertIdentity(v: Value, s: Shape)
    requires WellFormed(s) && Conforms(v, s)
    ensures Convert(v, s) == Ok(v)
    decreases Size(v), ShapeSize(s), 2
  {
    if s.Any? || v.Null? {
    } else if s.Nullable? {
      ConvertIdentity(v, s.inner);
    } else if s.ScalarStr? {
    } else if s.Collection? {
      ItemsIdentity(v.items, s.elem);
      assert Convert(v, s) == ConvertToCollection(v, s);
    } else if s.Mapping? {
      PairsIdentity(v.entries, s.key, s.value);
      if s.mkind != PairList {
        DedupeDistinct(v.entries);
      }
      assert Convert(v, s) == ConvertToMapping(v, s);
    } else if s.Composite? {
      FieldsIdentity(s.members, v.fields);
      ConvertIntoComposite(v, s.members);
    }
  }

  lemma {:induction false} ItemsIdentity(items: seq<Value>, e: Shape)
    requires WellFormed(e)
    requires forall i :: 0 <= i < |items| ==> Conforms(items[i], e)
    ensures ConvertItems(items, e) == items
    decreases ItemsSize(items), ShapeSize(e), 3
  {
    if |items| > 0 {
      ItemSizeBound(items, 0);
      ConvertIdentity(items[0], e);
      ItemsIdentity(items[1..], e);
      assert items == [items[0]] + items[1..];
    }
  }

  lemma {:induction false} PairsIdentity(entries: seq<Entry>, ks: Shape, vs: Shape)
    requires WellFormed(ks) && WellFormed(vs)
    requires forall i :: 0 <= i < |entries| ==>
      !entries[i].key.Null? && Conforms(entries[i].key, ks) && Conforms(entries[i].val, vs)
    ensures ConvertPairs(entries, ks, vs) == entries
    decreases EntriesSize(entries), 0, 0
  {
    if |entries| > 0 {
      EntrySizeBound(entries, 0);
      ConvertIdentity(entries[0].key, ks);
      ConvertIdentity(entries[0].val, vs);
      PairsIdentity(entries[1..], ks, vs);
      PairsHead(entries, ks, vs);
    }
  }

  /** An entry whose key and value convert to themselves is kept as it is. */
  lemma {:induction false} PairsHead(entries: seq<Entry>, ks: Shape, vs: Shape)
    requires |entries| > 0 && !entries[0].key.Null?
    requires Convert(entries[0].key, ks) == Ok(entries[0].key) && Convert(entries[0].val, vs) == Ok(entries[0].val)
    requires ConvertPairs(entries[1..], ks, vs) == entries[1..]
    ensures ConvertPairs(entries, ks, vs) == entries
  {
    assert entries == [entries[0]] + entries[1..];
  }

  lemma {:induction false} FieldsIdentity(ms: seq<Member>, fields: seq<Field>)
    requires WellFormed(Composite(ms)) && FieldsConform(fields, ms)
    ensures Populate(ms, NewFields(ms), Obj(fields), NoFilter) == fields
    decreases Size(Obj(fields)), 0, 1
  {
    var r := Populate(ms, NewFields(ms), Obj(fields), NoFilter);
    forall i | 0 <= i < |ms|
      ensures r[i] == fields[i]
    {
      FieldStep(ms, fields, i);
    }
  }

  lemma {:induction false} FieldStep(ms: seq<Member>, fields: seq<Field>, i: nat)
    requires WellFormed(Composite(ms)) && FieldsConform(fields, ms) && i < |ms|
    ensures Populate(ms, NewFields(ms), Obj(fields), NoFilter)[i] == fields[i]
    decreases Size(Obj(fields)), 0, 0
  {
    FieldSizeBound(fields, i);
    assert WellFormed(ms[i].shape) && Conforms(fields[i].val, ms[i].shape);
    if !fields[i].val.Null? {
      ConvertIdentity(fields[i].val, ms[i].shape);
    }
    FieldIdentityAt(ms, fields, i);
  }

  /** Slot `i` of a fresh instance populated from an instance of the same type, given that its value converts to itself. */
  lemma {:induction false} FieldIdentityAt(ms: seq<Member>, fields: seq<Field>, i: nat)
    requires WellFormed(Composite(ms)) && FieldsConform(fields, ms) && i < |ms|
    requires !fields[i].val.Null? ==> Convert(fields[i].val, ms[i].shape) == Ok(fields[i].val)
    ensures Populate(ms, NewFields(ms), Obj(fields), NoFilter)[i] == fields[i]
  {
    LookupUnique(fields, ms[i].name, i);
    assert WellFormed(ms[i].shape) && Conforms(fields[i].val, ms[i].shape);
    PopulateAt(ms, NewFields(ms), Obj(fields), i);
  }

  /** Converting twice into the same type is converting once. */
  lemma {:induction false} ConvertIdempotent(v: Value, s: Shape)
    requires WellFormed(s) && Convert(v, s).Ok?
    ensures Convert(Convert(v, s).value, s) == Convert(v, s)
  {
    ConvertIdentity(Convert(v, s).value, s);
  }

  /**
   * What a destination member receives from the first source member whose name matches it
   * ignoring case: nothing when that member is null or its value does not convert into the
   * member's type, and the converted value otherwise.
   */
  lemma {:induction false} IncomingFirstMatch(m: Member, fields: seq<Field>, k: nat)
    requires k < |fields| && SameName(fields[k].name, m.name)
    requires forall j :: 0 <= j < k ==> !SameName(fields[j].name, m.name)
    ensures fields[k].val.Null? ==> Incoming(m, Obj(fields)).None?
    ensures !fields[k].val.Null? && Convert(fields[k].val, m.shape).Ok? ==>
      Incoming(m, Obj(fields)) == Some(Convert(fields[k].val, m.shape).value)
    ensures !fields[k].val.Null? && Convert(fields[k].val, m.shape).Err? ==> Incoming(m, Obj(fields)).None?
  {
    var r := Lookup(Obj(fields), m.name);
    var i :| 0 <= i < |fields| && SameName(fields[i].name, m.name) && r.value == fields[i].val
      && forall j :: 0 <= j < i ==> !SameName(fields[j].name, m.name);
    assert i == k;
  }

  /** A member that is its own only match, holding an instance of the destination member's type, arrives unchanged. */
  lemma {:induction false} IncomingSelf(m: Member, fields: seq<Field>, k: nat)
    requires k < |fields| && SameName(fields[k].name, m.name)
    requires forall j :: 0 <= j < |fields| && j != k ==> !SameName(fields[j].name, m.name)
    requires WellFormed(m.shape) && Conforms(fields[k].val, m.shape)
    ensures fields[k].val.Null? ==> Incoming(m, Obj(fields)).None? && DefaultOf(m.shape) == fields[k].val
    ensures !fields[k].val.Null? ==> Incoming(m, Obj(fields)) == Some(fields[k].val)
  {
    IncomingFirstMatch(m, fields, k);
    if !fields[k].val.Null? {
      ConvertIdentity(fields[k].val, m.shape);
    }
  }

  /** A destination member no source member matches receives nothing. */
  lemma {:induction false} IncomingAbsent(m: Member, fields: seq<Field>)
    requires forall j :: 0 <= j < |fields| ==> !SameName(fields[j].name, m.name)
    ensures Incoming(m, Obj(fields)).None?
  {
  }

  /** Member `i` of a composite is its own only case-insensitive match among the members. */
  lemma {:induction false} OnlyMatch(ms: seq<Member>, fields: seq<Field>, i: nat)
    requires CaseDistinct(ms) && i < |ms| && |fields| <= |ms|
    requires forall j :: 0 <= j < |fields| ==> fields[j].name == ms[j].name
    ensures forall j :: 0 <= j < |fields| && j != i ==> !SameName(fields[j].name, ms[i].name)
  {
  }

  /**
   * A derived instance converts into its base type member for member: the base members
   * come first, and the derived type's own members are dropped.
   */
  lemma {:induction false} Upcast(base: seq<Member>, own: seq<Member>, fields: seq<Field>)
    requires WellFormed(Composite(base + own)) && FieldsConform(fields, base + own)
    ensures Convert(Obj(fields), Composite(base)) == Ok(Obj(fields[..|base|]))
  {
    var ms := base + own;
    var r := Populate(base, NewFields(base), Obj(fields), NoFilter);
    forall i | 0 <= i < |base|
      ensures r[i] == fields[i]
    {
      assert ms[i] == base[i];
      OnlyMatch(ms, fields, i);
      assert WellFormed(base[i].shape);
      assert Conforms(fields[i].val, base[i].shape);
      IncomingSelf(base[i], fields, i);
      assert r[i].name == fields[i].name;
    }
    assert r == fields[..|base|];
    ConvertIntoComposite(Obj(fields), base);
  }

  /** The slot `i` of an unfiltered Populate: the incoming value when there is one, the old member otherwise. */
  lemma {:induction false} PopulateAt(ms: seq<Member>, dest: seq<Field>, src: Value, i: nat)
    requires |dest| == |ms| && i < |ms|
    ensures Incoming(ms[i], src).None? ==> Populate(ms, dest, src, NoFilter)[i] == dest[i]
    ensures Incoming(ms[i], src).Some? ==>
      Populate(ms, dest, src, NoFilter)[i] == Field(dest[i].name, Incoming(ms[i], src).value)
  {
    assert Admits(NoFilter, ms[i]);
  }

  /** The leading members of an instance line up with the leading declared members. */
  predicate PrefixConforms(fields: seq<Field>, ms: seq<Member>) {
    && |fields| <= |ms|
    && forall j :: 0 <= j < |fields| ==> fields[j].name == ms[j].name && Conforms(fields[j].val, ms[j].shape)
  }

  lemma {:induction false} DowncastIncoming(ms: seq<Member>, fields: seq<Field>, i: nat)
    requires WellFormed(Composite(ms)) && PrefixConforms(fields, ms) && i < |ms|
    ensures i < |fields| && !fields[i].val.Null? ==> Incoming(ms[i], Obj(fields)) == Some(fields[i].val)
    ensures i < |fields| && fields[i].val.Null? ==> Incoming(ms[i], Obj(fields)).None? && DefaultOf(ms[i].shape) == Null
    ensures i >= |fields| ==> Incoming(ms[i], Obj(fields)).None?
  {
    OnlyMatch(ms, fields, i);
    assert WellFormed(ms[i].shape);
    if i < |fields| {
      IncomingSelf(ms[i], fields, i);
    } else {
      IncomingAbsent(ms[i], fields);
    }
  }

  /** Slot `i` of a fresh instance populated from a shorter instance whose members it starts with. */
  lemma {:induction false} DowncastAt(ms: seq<Member>, fields: seq<Field>, i: nat)
    requires WellFormed(Composite(ms)) && PrefixConforms(fields, ms) && i < |ms|
    ensures Populate(ms, NewFields(ms), Obj(fields), NoFilter)[i] ==
      if i < |fields| then fields[i] else Field(ms[i].name, DefaultOf(ms[i].shape))
  {
    DowncastIncoming(ms, fields, i);
    PopulateAt(ms, NewFields(ms), Obj(fields), i);
  }

  lemma {:induction false} DowncastFields(ms: seq<Member>, fields: seq<Field>)
    requires WellFormed(Composite(ms)) && PrefixConforms(fields, ms)
    ensures Populate(ms, NewFields(ms), Obj(fields), NoFilter) == fields + NewFields(ms[|fields|..])
  {
    var r := Populate(ms, NewFields(ms), Obj(fields), NoFilter);
    var rest := NewFields(ms[|fields|..]);
    forall i | 0 <= i < |ms|
      ensures r[i] == (fields + rest)[i]
    {
      DowncastAt(ms, fields, i);
      if i >= |fields| {
        assert ms[|fields|..][i - |fields|] == ms[i];
      }
    }
  }

  /**
   * A base instance converts into a derived type: the inherited members are copied and
   * the derived type's own members keep their defaults.
   */
  lemma {:induction false} Downcast(base: seq<Member>, own: seq<Member>, fields: seq<Field>)
    requires WellFormed(Composite(base + own)) && FieldsConform(fields, base)
    ensures Convert(Obj(fields), Composite(base + own)) == Ok(Obj(fields + NewFields(own)))
  {
    var ms := base + own;
    assert ms[|fields|..] == own;
    forall j | 0 <= j < |fields|
      ensures fields[j].name == ms[j].name && Conforms(fields[j].val, ms[j].shape)
    {
      assert ms[j] == base[j];
    }
    DowncastFields(ms, fields);
    ConvertIntoComposite(Obj(fields), ms);
  }
}
