/**
 * The object-dictionary view of a composite and its inverse: `ToObjectDictionary` lists
 * every member under its name, and `FromObjectDictionary` restores every member whose
 * key is still present while members whose key was removed keep their defaults.
 */
module ObjectDictionaries {
  import opened Outcomes
  import opened Text
  import opened Values
  import opened Keyed
  import opened Mapper
  import opened Identity

  /** A string-keyed entry that is the only one naming `name` is the one paired with it. */
  lemma {:induction false} LookupEntryUnique(entries: seq<Entry>, name: string, e: Entry)
    requires e in entries && KeyNames(e, name)
    requires forall x :: x in entries && KeyNames(x, name) ==> x == e
    ensures Lookup(Map(entries), name) == Some(e.val)
  {
    var r := Lookup(Map(entries), name);
    assert r.Some?;
    var k :| 0 <= k < |entries| && KeyNames(entries[k], name) && r.value == entries[k].val;
    assert entries[k] in entries;
  }

  /** The entries of a composite have distinct keys when its member names differ. */
  lemma {:induction false} ObjectEntriesDistinct(fields: seq<Field>, ms: seq<Member>)
    requires CaseDistinct(ms) && FieldsConform(fields, ms)
    ensures DistinctKeys(ObjectEntries(fields))
  {
    var es := ObjectEntries(fields);
    forall i, j | 0 <= i < j < |es|
      ensures es[i].key != es[j].key
    {
      assert !SameName(fields[i].name, fields[j].name);
    }
  }

  /** ToObjectDictionary of a composite: one entry per member, named after it, in member order, nulls included. */
  lemma {:induction false} ObjectDictionaryView(fields: seq<Field>, ms: seq<Member>)
    requires WellFormed(Composite(ms)) && FieldsConform(fields, ms)
    ensures ToObjectDictionary(Obj(fields)) == Ok(Map(ObjectEntries(fields)))
  {
    var es := ObjectEntries(fields);
    ConvertObjectIntoMapping(fields, ObjectDictionaryShape);
    EntriesIdentity(fields, ms);
    assert Build(ObjectDictionary, es) == es;
  }

  /** The member entries of a composite convert to themselves under string keys and untyped values, and no key repeats. */
  lemma {:induction false} EntriesIdentity(fields: seq<Field>, ms: seq<Member>)
    requires WellFormed(Composite(ms)) && FieldsConform(fields, ms)
    ensures ConvertPairs(ObjectEntries(fields), ScalarStr, Any) == ObjectEntries(fields)
    ensures Dedupe(ObjectEntries(fields)) == ObjectEntries(fields)
  {
    var es := ObjectEntries(fields);
    PairsIdentity(es, ScalarStr, Any);
    ObjectEntriesDistinct(fields, ms);
    DedupeDistinct(es);
  }

  /** After key removal, the only entry naming member `i` is that member's own entry, and only if its key was kept. */
  lemma {:induction false} KeptEntryUnique(fields: seq<Field>, ms: seq<Member>, removed: set<string>, i: nat)
    requires CaseDistinct(ms) && FieldsConform(fields, ms) && i < |ms|
    ensures forall x :: x in RemoveKeys(ObjectEntries(fields), removed) && KeyNames(x, ms[i].name) ==>
      x == ObjectEntries(fields)[i] && ms[i].name !in removed
  {
    var es := ObjectEntries(fields);
    forall x | x in RemoveKeys(es, removed) && KeyNames(x, ms[i].name)
      ensures x == es[i] && ms[i].name !in removed
    {
      var j :| 0 <= j < |es| && es[j] == x;
      assert SameName(fields[j].name, ms[i].name);
      assert j == i;
    }
  }

  /** The member a destination slot `i` receives from the entries of an instance of the same type, some keys removed. */
  lemma {:induction false} RestoredIncoming(fields: seq<Field>, ms: seq<Member>, removed: set<string>, i: nat)
    requires WellFormed(Composite(ms)) && FieldsConform(fields, ms) && i < |ms|
    ensures ms[i].name in removed ==> Incoming(ms[i], Map(RemoveKeys(ObjectEntries(fields), removed))).None?
    ensures ms[i].name !in removed && !fields[i].val.Null? ==>
      Incoming(ms[i], Map(RemoveKeys(ObjectEntries(fields), removed))) == Some(fields[i].val)
    ensures ms[i].name !in removed && fields[i].val.Null? ==>
      Incoming(ms[i], Map(RemoveKeys(ObjectEntries(fields), removed))).None? && DefaultOf(ms[i].shape) == Null
  {
    var es := ObjectEntries(fields);
    var kept := RemoveKeys(es, removed);
    KeptEntryUnique(fields, ms, removed, i);
    if ms[i].name !in removed {
      assert es[i] in es;
      LookupEntryUnique(kept, ms[i].name, es[i]);
      if !fields[i].val.Null? {
        assert WellFormed(ms[i].shape);
        ConvertIdentity(fields[i].val, ms[i].shape);
      }
    }
  }

  /** The instance rebuilt from its own dictionary after `Remove(name)` for each name in `removed`. */
  function Restored(fields: seq<Field>, ms: seq<Member>, removed: set<string>): seq<Field>
    requires |fields| == |ms|
  {
    seq(|ms|, i requires 0 <= i < |ms| =>
      if ms[i].name in removed then Field(ms[i].name, DefaultOf(ms[i].shape)) else fields[i])
  }

  /**
   * FromObjectDictionary after ToObjectDictionary and key removal: members whose key is
   * still present come back unchanged; members whose key was removed are at their default.
   */
  lemma {:induction false} FromObjectDictionaryRemoving(fields: seq<Field>, ms: seq<Member>, removed: set<string>)
    requires WellFormed(Composite(ms)) && FieldsConform(fields, ms)
    ensures FromObjectDictionary(RemoveKeys(ObjectEntries(fields), removed), ms) == Restored(fields, ms, removed)
  {
    var r := FromObjectDictionary(RemoveKeys(ObjectEntries(fields), removed), ms);
    var expected := Restored(fields, ms, removed);
    forall i | 0 <= i < |ms|
      ensures r[i] == expected[i]
    {
      RestoredIncoming(fields, ms, removed, i);
    }
  }

  lemma {:induction false} RemoveNothing(entries: seq<Entry>)
    ensures RemoveKeys(entries, {}) == entries
  {
    if |entries| > 0 {
      RemoveNothing(entries[1..]);
      assert entries == [entries[0]] + entries[1..];
    }
  }

  /** FromObjectDictionary undoes ToObjectDictionary. */
  lemma {:induction false} ObjectDictionaryRoundTrip(fields: seq<Field>, ms: seq<Member>)
    requires WellFormed(Composite(ms)) && FieldsConform(fields, ms)
    ensures ToObjectDictionary(Obj(fields)).Ok?
    ensures FromObjectDictionary(ToObjectDictionary(Obj(fields)).value.entries, ms) == fields
  {
    ObjectDictionaryView(fields, ms);
    RemoveNothing(ObjectEntries(fields));
    FromObjectDictionaryRemoving(fields, ms, {});
    assert Restored(fields, ms, {}) == fields;
  }
}
