/**
 * The Redis keyspace a store works on, and the key names it uses under its
 * base prefix: `<base>item:<kind>:<id>` for primary records,
 * `<base>index:<kind>:<field>` for the sorted-set indexes and
 * `<base>type:<typeName>` for the type hashes. The effect of each atomic
 * script on the keyspace is a function here, and the lemmas relate them.
 */
module Keyspace {
  import opened SortedSets

  /**
   * The three key segments. The proofs rely on these concrete strings: none
   * of them is a prefix of another, and they differ right after the base.
   */
  const ItemSegment: string := "item:"
  const IndexSegment: string := "index:"
  const TypeSegment: string := "type:"

  predicate IsPrefix(p: string, s: string) {
    |p| <= |s| && s[..|p|] == p
  }

  predicate NoColon(s: string) {
    forall i :: 0 <= i < |s| ==> s[i] != ':'
  }

  function ItemPrefix(base: string, kind: string): string {
    base + ItemSegment + kind + ":"
  }

  /** The record key: the id under its kind's item prefix, which List's GET loop prepends. */
  function ItemKey(base: string, kind: string, id: string): (k: string)
    ensures IsPrefix(ItemPrefix(base, kind), k) && k[|ItemPrefix(base, kind)|..] == id
  {
    ItemPrefix(base, kind) + id
  }

  function IndexPrefix(base: string, kind: string): string {
    base + IndexSegment + kind + ":"
  }

  /** The index key: the field under its kind's index prefix, the prefix Remove scans. */
  function IndexKey(base: string, kind: string, field: string): (k: string)
    ensures IsPrefix(IndexPrefix(base, kind), k) && k[|IndexPrefix(base, kind)|..] == field
  {
    IndexPrefix(base, kind) + field
  }

  /** The type key: the type name under the base prefix's type segment. */
  function TypeKey(base: string, typeName: string): (k: string)
    ensures IsPrefix(base + TypeSegment, k) && k[|base + TypeSegment|..] == typeName
  {
    base + TypeSegment + typeName
  }

  /** Records, indexes and type hashes never share a key. */
  lemma {:induction false} NamespacesDisjoint(base: string, kind: string, id: string, kind': string, field: string, typeName: string)
    ensures ItemKey(base, kind, id) != IndexKey(base, kind', field)
    ensures ItemKey(base, kind, id) != TypeKey(base, typeName)
    ensures IndexKey(base, kind', field) != TypeKey(base, typeName)
  {
    var b := |base|;
    assert ItemKey(base, kind, id)[b + 1] == 't';
    assert IndexKey(base, kind', field)[b + 1] == 'n';
    assert ItemKey(base, kind, id)[b] == 'i';
    assert IndexKey(base, kind', field)[b] == 'i';
    assert TypeKey(base, typeName)[b] == 't';
  }

  /** Splitting `kind + ":" + rest` at the first colon recovers `kind` when it has none. */
  lemma {:induction false} ColonSplit(k1: string, r1: string, k2: string, r2: string)
    requires NoColon(k1) && NoColon(k2)
    requires k1 + ":" + r1 == k2 + ":" + r2
    ensures k1 == k2 && r1 == r2
  {
    var s := k1 + ":" + r1;
    assert s[|k1|] == ':' && s[|k2|] == ':';
    assert |k1| == |k2|;
    assert k1 == s[..|k1|] == k2;
    assert r1 == s[|k1| + 1..] == r2;
  }

  /** Primary-record keys are injective for colon-free kinds. */
  lemma ItemKeyInjective(base: string, k1: string, i1: string, k2: string, i2: string)
    requires NoColon(k1) && NoColon(k2)
    requires ItemKey(base, k1, i1) == ItemKey(base, k2, i2)
    ensures k1 == k2 && i1 == i2
  {
    var p := base + ItemSegment;
    assert ItemKey(base, k1, i1) == p + (k1 + ":" + i1);
    assert ItemKey(base, k2, i2) == p + (k2 + ":" + i2);
    assert (p + (k1 + ":" + i1))[|p|..] == k1 + ":" + i1;
    ColonSplit(k1, i1, k2, i2);
  }

  /** Index keys of one kind are injective in the field name. */
  lemma IndexKeyInjective(base: string, kind: string, f1: string, f2: string)
    requires IndexKey(base, kind, f1) == IndexKey(base, kind, f2)
    ensures f1 == f2
  {
    var p := IndexPrefix(base, kind);
    assert f1 == (p + f1)[|p|..];
  }

  /** The index prefix Remove scans for `kind` matches exactly that kind's index keys (colon-free kinds). */
  lemma IndexPrefixOwnKind(base: string, kind: string, k: string, field: string)
    requires NoColon(kind) && NoColon(k)
    ensures IsPrefix(IndexPrefix(base, kind), IndexKey(base, k, field)) <==> k == kind
  {
    var p := IndexPrefix(base, kind);
    var key := IndexKey(base, k, field);
    if IsPrefix(p, key) {
      var q := base + IndexSegment;
      var rest := key[|p|..];
      assert key == p + rest;
      assert q + (kind + ":" + rest) == p + rest;
      assert q + (k + ":" + field) == key;
      assert (q + (k + ":" + field))[|q|..] == k + ":" + field;
      assert (q + (kind + ":" + rest))[|q|..] == kind + ":" + rest;
      ColonSplit(kind, rest, k, field);
    }
    if k == kind {
      assert key == p + field;
      assert key[..|p|] == p;
    }
  }

  /** The engine state: string keys, sorted-set keys, hash keys (field names only). */
  datatype Keyspace = Keyspace(records: map<string, string>, zsets: ZSets, hashes: map<string, set<string>>)

  /** The fields of the hash at `key`; a missing key reads as the empty hash. */
  function HashOf(hashes: map<string, set<string>>, key: string): set<string> {
    if key in hashes then hashes[key] else {}
  }

  /** The record key of every member of every index of a colon-free kind holds a record. */
  ghost predicate IndexesHaveRecords(base: string, st: Keyspace) {
    forall k, f, m :: NoColon(k) && m in ZOf(st.zsets, IndexKey(base, k, f)) ==> ItemKey(base, k, m) in st.records
  }

  /** One instance of the invariant: a member of an index of a colon-free kind has its record. */
  lemma IndexMemberHasRecord(base: string, st: Keyspace, kind: string, field: string, m: string)
    requires IndexesHaveRecords(base, st) && NoColon(kind)
    requires m in ZOf(st.zsets, IndexKey(base, kind, field))
    ensures ItemKey(base, kind, m) in st.records
  {
  }

  /** ZADD of `id` under `prefix + name` for every name of `scores`. */
  function ZAddFields(zs: ZSets, prefix: string, id: string, scores: map<string, Score>): (r: ZSets)
    ensures forall n :: n in scores ==> prefix + n in r && r[prefix + n] == ZOf(zs, prefix + n)[id := scores[n]]
    ensures forall k :: !(IsPrefix(prefix, k) && k[|prefix|..] in scores) ==>
      (k in r <==> k in zs) && ZOf(r, k) == ZOf(zs, k)
  {
    var r := map k | k in zs.Keys + (set n | n in scores :: prefix + n) ::
      if IsPrefix(prefix, k) && k[|prefix|..] in scores then ZOf(zs, k)[id := scores[k[|prefix|..]]] else ZOf(zs, k);
    assert forall n :: (prefix + n)[|prefix|..] == n && IsPrefix(prefix, prefix + n);
    r
  }

  /** The keys `KEYS prefix*` returns among the sorted sets. */
  function KeysWithPrefix(zs: ZSets, prefix: string): (ks: set<string>)
    ensures forall k :: k in ks <==> k in zs && IsPrefix(prefix, k)
  {
    set k | k in zs && IsPrefix(prefix, k)
  }

  /** The Add script: SET the record, ZADD the id into each indexed field's index. */
  function AddEffect(base: string, st: Keyspace, kind: string, id: string, record: string, scores: map<string, Score>): (r: Keyspace)
    ensures ItemKey(base, kind, id) in r.records && r.records[ItemKey(base, kind, id)] == record
    ensures forall k :: k != ItemKey(base, kind, id) ==>
      (k in r.records <==> k in st.records) && (k in st.records ==> r.records[k] == st.records[k])
    ensures forall n :: n in scores ==>
      ZOf(r.zsets, IndexKey(base, kind, n)) == ZOf(st.zsets, IndexKey(base, kind, n))[id := scores[n]]
    ensures r.hashes == st.hashes
  {
    st.(records := st.records[ItemKey(base, kind, id) := record],
        zsets := ZAddFields(st.zsets, IndexPrefix(base, kind), id, scores))
  }

  /** The Remove script: ZREM the id from every index key of the kind, DEL the record. */
  function RemoveEffect(base: string, st: Keyspace, kind: string, id: string): (r: Keyspace)
    ensures ItemKey(base, kind, id) !in r.records
    ensures forall k :: !IsPrefix(IndexPrefix(base, kind), k) ==> (k in r.zsets <==> k in st.zsets) && ZOf(r.zsets, k) == ZOf(st.zsets, k)
    ensures r.hashes == st.hashes
  {
    st.(records := st.records - {ItemKey(base, kind, id)},
        zsets := ZRemSet(st.zsets, KeysWithPrefix(st.zsets, IndexPrefix(base, kind)), id))
  }

  /** DefineType's HSET: the names join the fields of the type hash. */
  function DefineTypeEffect(base: string, st: Keyspace, typeName: string, names: set<string>): (r: Keyspace)
    ensures HashOf(r.hashes, TypeKey(base, typeName)) == HashOf(st.hashes, TypeKey(base, typeName)) + names
    ensures forall k :: k != TypeKey(base, typeName) ==> (k in r.hashes <==> k in st.hashes) && HashOf(r.hashes, k) == HashOf(st.hashes, k)
    ensures r.records == st.records && r.zsets == st.zsets
  {
    st.(hashes := st.hashes[TypeKey(base, typeName) := HashOf(st.hashes, TypeKey(base, typeName)) + names])
  }

  lemma AddPreservesIndexesHaveRecords(base: string, st: Keyspace, kind: string, id: string, record: string, scores: map<string, Score>)
    requires NoColon(kind)
    requires IndexesHaveRecords(base, st)
    ensures IndexesHaveRecords(base, AddEffect(base, st, kind, id, record, scores))
  {
    var st' := AddEffect(base, st, kind, id, record, scores);
    var p := IndexPrefix(base, kind);
    forall k, f, m | NoColon(k) && m in ZOf(st'.zsets, IndexKey(base, k, f))
      ensures ItemKey(base, k, m) in st'.records
    {
      var key := IndexKey(base, k, f);
      if IsPrefix(p, key) && key[|p|..] in scores {
        IndexPrefixOwnKind(base, kind, k, f);
        assert key == p + f;
        assert key[|p|..] == f;
        if m != id {
          assert m in ZOf(st.zsets, key);
        }
      } else {
        assert m in ZOf(st.zsets, key);
      }
    }
  }

  lemma RemovePreservesIndexesHaveRecords(base: string, st: Keyspace, kind: string, id: string)
    requires NoColon(kind)
    requires IndexesHaveRecords(base, st)
    ensures IndexesHaveRecords(base, RemoveEffect(base, st, kind, id))
  {
    var st' := RemoveEffect(base, st, kind, id);
    var matched := KeysWithPrefix(st.zsets, IndexPrefix(base, kind));
    forall k, f, m | NoColon(k) && m in ZOf(st'.zsets, IndexKey(base, k, f))
      ensures ItemKey(base, k, m) in st'.records
    {
      var key := IndexKey(base, k, f);
      IndexPrefixOwnKind(base, kind, k, f);
      assert m in ZOf(st.zsets, key);
      if k == kind {
        assert key in matched;
        assert m != id;
      }
      if ItemKey(base, k, m) == ItemKey(base, kind, id) {
        ItemKeyInjective(base, k, m, kind, id);
        assert false;
      }
    }
  }

  /** After Remove, the id is in no index of its kind; other members and other keys are as before. */
  lemma {:induction false} RemoveRetractsId(base: string, st: Keyspace, kind: string, id: string)
    ensures ItemKey(base, kind, id) !in RemoveEffect(base, st, kind, id).records
    ensures forall f :: id !in ZOf(RemoveEffect(base, st, kind, id).zsets, IndexKey(base, kind, f))
    ensures forall key, m :: m != id ==>
      (m in ZOf(RemoveEffect(base, st, kind, id).zsets, key) <==> m in ZOf(st.zsets, key))
    ensures forall key, m :: m in ZOf(RemoveEffect(base, st, kind, id).zsets, key) ==>
      ZOf(RemoveEffect(base, st, kind, id).zsets, key)[m] == ZOf(st.zsets, key)[m]
    ensures forall key :: key != ItemKey(base, kind, id) ==>
      (key in RemoveEffect(base, st, kind, id).records <==> key in st.records) &&
      (key in st.records ==> RemoveEffect(base, st, kind, id).records[key] == st.records[key])
  {
    var p := IndexPrefix(base, kind);
    var st' := RemoveEffect(base, st, kind, id);
    var matched := KeysWithPrefix(st.zsets, p);
    forall f ensures id !in ZOf(st'.zsets, IndexKey(base, kind, f)) {
      var key := IndexKey(base, kind, f);
      assert key == p + f && key[..|p|] == p;
      if key in st.zsets {
        assert key in matched;
      }
    }
    forall key, m | m != id
      ensures m in ZOf(st'.zsets, key) <==> m in ZOf(st.zsets, key)
    {
      if key in matched {
        assert ZOf(st'.zsets, key) == ZOf(st.zsets, key) - {id};
      }
    }
    forall key, m | m in ZOf(st'.zsets, key)
      ensures ZOf(st'.zsets, key)[m] == ZOf(st.zsets, key)[m]
    {
      if key in matched {
        assert ZOf(st'.zsets, key) == ZOf(st.zsets, key) - {id};
      }
    }
  }

  /** Remove is idempotent: a second Remove of the same pair finds no record and changes nothing. */
  lemma RemoveIdempotent(base: string, st: Keyspace, kind: string, id: string)
    ensures ItemKey(base, kind, id) !in RemoveEffect(base, st, kind, id).records
    ensures RemoveEffect(base, RemoveEffect(base, st, kind, id), kind, id) == RemoveEffect(base, st, kind, id)
  {
    var p := IndexPrefix(base, kind);
    var zs1 := RemoveEffect(base, st, kind, id).zsets;
    var matched := KeysWithPrefix(st.zsets, p);
    var again := KeysWithPrefix(zs1, p);
    var zs2 := ZRemSet(zs1, again, id);
    forall k ensures (k in zs2 <==> k in zs1) && (k in zs2 ==> zs2[k] == zs1[k]) {
      if k in again {
        assert k in matched;
        assert zs1[k] == st.zsets[k] - {id};
        assert zs1[k] - {id} == zs1[k];
      }
    }
    MapsEqual(zs2, zs1);
  }

  /** Removing under one colon-free kind leaves another kind's record and indexes as they were, even for the same id. */
  lemma RemoveLeavesOtherKinds(base: string, st: Keyspace, kind: string, id: string, other: string, id': string, f: string)
    requires NoColon(kind) && NoColon(other) && other != kind
    ensures var st' := RemoveEffect(base, st, kind, id);
      (ItemKey(base, other, id') in st'.records <==> ItemKey(base, other, id') in st.records) &&
      (ItemKey(base, other, id') in st.records ==>
        st'.records[ItemKey(base, other, id')] == st.records[ItemKey(base, other, id')]) &&
      ZOf(st'.zsets, IndexKey(base, other, f)) == ZOf(st.zsets, IndexKey(base, other, f))
  {
    if ItemKey(base, other, id') == ItemKey(base, kind, id) {
      ItemKeyInjective(base, other, id', kind, id);
    }
    IndexPrefixOwnKind(base, kind, other, f);
  }

  /** After Add, each indexed field's index holds the id with the field's score; nothing else changes. */
  lemma AddIndexesFields(base: string, st: Keyspace, kind: string, id: string, record: string, scores: map<string, Score>, f: string, key: string)
    ensures var st' := AddEffect(base, st, kind, id, record, scores);
      st'.records[ItemKey(base, kind, id)] == record &&
      (f in scores ==> ZOf(st'.zsets, IndexKey(base, kind, f)) == ZOf(st.zsets, IndexKey(base, kind, f))[id := scores[f]]) &&
      (f !in scores ==> ZOf(st'.zsets, IndexKey(base, kind, f)) == ZOf(st.zsets, IndexKey(base, kind, f))) &&
      (!IsPrefix(IndexPrefix(base, kind), key) ==> ZOf(st'.zsets, key) == ZOf(st.zsets, key)) &&
      st'.hashes == st.hashes
  {
    var p := IndexPrefix(base, kind);
    assert IndexKey(base, kind, f) == p + f;
    assert (p + f)[|p|..] == f;
  }
}
