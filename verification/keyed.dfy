/**
 * Keyed access: the dictionary semantics of a mapping destination (assigning through
 * the indexer, so a later entry with an existing key overwrites that key's value in
 * place), the entry view of a composite instance, and the case-insensitive member
 * lookup used to pair destination members with source members or dictionary keys.
 */
module Keyed {
  import opened Outcomes
  import opened Text
  import opened Values

  /** The value stored under `k`: that of the first entry with key `k`. */
  function Find(entries: seq<Entry>, k: Value): (r: Option<Value>)
    ensures r.Some? <==> exists i :: 0 <= i < |entries| && entries[i].key == k
    ensures r.Some? ==> exists i :: 0 <= i < |entries| && entries[i] == Entry(k, r.value)
  {
    if |entries| == 0 then None
    else if entries[0].key == k then Some(entries[0].val)
    else
      var r := Find(entries[1..], k);
      assert forall i :: 0 < i < |entries| ==> entries[i] == entries[1..][i - 1];
      r
  }

  /** The value of the last entry with key `k`: what a sequence of indexer assignments leaves. */
  function LastValue(entries: seq<Entry>, k: Value): Option<Value> {
    if |entries| == 0 then None
    else if entries[|entries| - 1].key == k then Some(entries[|entries| - 1].val)
    else LastValue(entries[..|entries| - 1], k)
  }

  /** `dict[e.key] = e.val`: overwrites in place when the key is present, appends otherwise. */
  function Put(acc: seq<Entry>, e: Entry): (r: seq<Entry>)
    requires DistinctKeys(acc)
    ensures DistinctKeys(r)
    ensures forall x :: x in r ==> x in acc || x == e
    ensures Find(r, e.key) == Some(e.val)
    ensures forall k :: k != e.key ==> Find(r, k) == Find(acc, k)
    ensures |acc| <= |r| <= |acc| + 1
    ensures forall i :: 0 <= i < |acc| ==> r[i].key == acc[i].key
  {
    match FirstIndex(acc, (x: Entry) => x.key == e.key)
    case Some(j) =>
      var r := acc[j := e];
      FindDistinct(r, j);
      forall k | k != e.key
        ensures Find(r, k) == Find(acc, k)
      {
        FindUpdate(acc, j, e, k);
      }
      r
    case None =>
      var r := acc + [e];
      FindDistinct(r, |acc|);
      forall k | k != e.key
        ensures Find(r, k) == Find(acc, k)
      {
        FindAppend(acc, e, k);
      }
      r
  }

  lemma {:induction false} FindDistinct(entries: seq<Entry>, j: nat)
    requires DistinctKeys(entries) && j < |entries|
    ensures Find(entries, entries[j].key) == Some(entries[j].val)
  {
    if j > 0 {
      FindDistinct(entries[1..], j - 1);
    }
  }

  lemma {:induction false} FindUpdate(acc: seq<Entry>, j: nat, e: Entry, k: Value)
    requires j < |acc| && acc[j].key == e.key && k != e.key
    ensures Find(acc[j := e], k) == Find(acc, k)
  {
    if |acc| > 0 && acc[0].key != k && j > 0 {
      assert acc[j := e][1..] == acc[1..][j - 1 := e];
      FindUpdate(acc[1..], j - 1, e, k);
    }
  }

  lemma {:induction false} FindAppend(acc: seq<Entry>, e: Entry, k: Value)
    requires k != e.key
    ensures Find(acc + [e], k) == Find(acc, k)
  {
    if |acc| > 0 && acc[0].key != k {
      assert (acc + [e])[1..] == acc[1..] + [e];
      FindAppend(acc[1..], e, k);
    }
  }

  /** The entries a dictionary holds after assigning each entry through its indexer, in order. */
  function Dedupe(entries: seq<Entry>): (r: seq<Entry>)
    ensures DistinctKeys(r)
    ensures forall x :: x in r ==> x in entries
    ensures forall k :: Find(r, k) == LastValue(entries, k)
  {
    if |entries| == 0 then []
    else
      var init := entries[..|entries| - 1];
      var last := entries[|entries| - 1];
      var r := Put(Dedupe(init), last);
      assert forall x :: x in init ==> x in entries;
      r
  }

  /** Keys already distinct: assigning them one by one builds the same sequence. */
  lemma {:induction false} DedupeDistinct(entries: seq<Entry>)
    requires DistinctKeys(entries)
    ensures Dedupe(entries) == entries
  {
    if |entries| > 0 {
      var init := entries[..|entries| - 1];
      var last := entries[|entries| - 1];
      assert init + [last] == entries;
      PutFresh(init, last);
      DedupeDistinct(init);
      assert Dedupe(entries) == Put(Dedupe(init), last);
    }
  }

  /** Assigning a key not yet present appends its entry. */
  lemma {:induction false} PutFresh(acc: seq<Entry>, e: Entry)
    requires DistinctKeys(acc + [e])
    ensures DistinctKeys(acc) && Put(acc, e) == acc + [e]
  {
    var all := acc + [e];
    assert all[|acc|] == e;
    forall i | 0 <= i < |acc|
      ensures acc[i].key != e.key
    {
      assert acc[i] == all[i];
    }
    forall i, j | 0 <= i < j < |acc|
      ensures acc[i].key != acc[j].key
    {
      assert acc[i] == all[i] && acc[j] == all[j];
    }
    assert FirstIndex(acc, (x: Entry) => x.key == e.key).None?;
  }

  /** The entry view of a composite instance: one entry per member, keyed by the member name. */
  function ObjectEntries(fields: seq<Field>): (r: seq<Entry>)
    ensures |r| == |fields|
    ensures forall i :: 0 <= i < |fields| ==> r[i] == Entry(Str(fields[i].name), fields[i].val)
    ensures EntriesSize(r) == FieldsSize(fields)
  {
    if |fields| == 0 then []
    else
      var r := [Entry(Str(fields[0].name), fields[0].val)] + ObjectEntries(fields[1..]);
      assert r[1..] == ObjectEntries(fields[1..]);
      assert EntrySize(r[0]) == 1 + Size(fields[0].val);
      r
  }

  /** A dictionary key names a member when it is a string equal to the name ignoring case. */
  predicate KeyNames(e: Entry, name: string) {
    e.key.Str? && SameName(e.key.s, name)
  }

  /**
   * The source value paired with a destination member called `name`: the first source
   * member, or the first string-keyed dictionary entry, whose name matches ignoring case.
   */
  function Lookup(src: Value, name: string): (r: Option<Value>)
    ensures r.Some? ==> Size(r.value) < Size(src)
    ensures src.Obj? ==>
      (r.None? <==> forall j :: 0 <= j < |src.fields| ==> !SameName(src.fields[j].name, name))
    ensures src.Obj? && r.Some? ==>
      exists i :: 0 <= i < |src.fields| && SameName(src.fields[i].name, name) && r.value == src.fields[i].val
        && forall j :: 0 <= j < i ==> !SameName(src.fields[j].name, name)
    ensures src.Map? ==> (r.None? <==> forall j :: 0 <= j < |src.entries| ==> !KeyNames(src.entries[j], name))
    ensures src.Map? && r.Some? ==>
      exists i :: 0 <= i < |src.entries| && KeyNames(src.entries[i], name) && r.value == src.entries[i].val
        && forall j :: 0 <= j < i ==> !KeyNames(src.entries[j], name)
    ensures !src.Obj? && !src.Map? ==> r.None?
  {
    match src
    case Obj(fields) =>
      (match FirstIndex(fields, (f: Field) => SameName(f.name, name))
       case Some(i) => FieldSizeBound(fields, i); Some(fields[i].val)
       case None => None)
    case Map(entries) =>
      (match FirstIndex(entries, (e: Entry) => KeyNames(e, name))
       case Some(i) => EntrySizeBound(entries, i); Some(entries[i].val)
       case None => None)
    case _ => None
  }

  /** The dictionary after `Remove(name)` for every name in `names`; the other entries keep their order. */
  function RemoveKeys(entries: seq<Entry>, names: set<string>): (r: seq<Entry>)
    ensures forall x :: x in r <==> x in entries && !(x.key.Str? && x.key.s in names)
  {
    if |entries| == 0 then []
    else
      var head := if entries[0].key.Str? && entries[0].key.s in names then [] else [entries[0]];
      var r := head + RemoveKeys(entries[1..], names);
      assert forall x :: x in entries <==> x == entries[0] || x in entries[1..];
      r
  }
}
