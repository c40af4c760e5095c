/**
 * `Store` (store.go, store_add.go, store_remove.go, store_get.go,
 * store_list.go, store_define_type.go): the Redis keyspace as three fields of
 * the store object, and each Lua script as one method whose body is the
 * atomic step the server runs.
 */
module Stores {
  import opened Wrappers
  import opened ItemValueTypes
  import opened Fields
  import opened Items
  import opened Codec
  import opened SortedSets
  import opened Keyspace
  import opened Queries

  /** A script argument as the client sends it: a string, or a number. */
  datatype Arg = Str(s: string) | Num(n: Score)

  /** The numbers of a run of numeric arguments. */
  function Numbers(args: seq<Arg>): (r: seq<Score>)
    requires forall j :: 0 <= j < |args| ==> args[j].Num?
    ensures |r| == |args|
    ensures forall j :: 0 <= j < |args| ==> Num(r[j]) == args[j]
  {
    seq(|args|, j requires 0 <= j < |args| => args[j].n)
  }

  /** The KEYS and ARGV that Add passes to the Add script. */
  datatype AddCall = AddCall(keys: seq<string>, args: seq<Arg>)

  /** Index key `key` with argument `arg` is the index entry of one indexed field of `d`. */
  predicate IndexEntry(base: string, d: ItemData, key: string, arg: Arg) {
    var p := IndexPrefix(base, d.kind);
    IsPrefix(p, key) && key[|p|..] in d.IndexedScores() && arg == Num(d.IndexedScores()[key[|p|..]])
  }

  /**
   * The layout the Add script expects: KEYS[1] the record key, KEYS[2..] the
   * index keys; ARGV[1] the id, ARGV[2] the record, ARGV[idx+1] the score
   * for KEYS[idx]; one index key per indexed field, none twice.
   */
  ghost predicate AddCallFor(base: string, d: ItemData, record: string, c: AddCall) {
    |c.keys| >= 1 && |c.args| == |c.keys| + 1 &&
    c.keys[0] == ItemKey(base, d.kind, d.id) && c.args[0] == Str(d.id) && c.args[1] == Str(record) &&
    (forall j :: 1 <= j < |c.keys| ==> IndexEntry(base, d, c.keys[j], c.args[j + 1])) &&
    (forall n :: n in d.IndexedScores() ==> IndexPrefix(base, d.kind) + n in c.keys[1..]) &&
    Distinct(c.keys[1..])
  }

  /** Every listed index key carries a number: the score of its field. */
  lemma AddCallEntry(base: string, d: ItemData, record: string, c: AddCall, i: nat)
    requires AddCallFor(base, d, record, c)
    requires i < |c.keys| - 1
    ensures IndexEntry(base, d, c.keys[1..][i], c.args[2..][i])
  {
    assert c.keys[1..][i] == c.keys[i + 1] && c.args[2..][i] == c.args[i + 2];
  }

  /** An indexed field's key gets the same set from the ZADD loop as from `ZAddFields`. */
  lemma AddCallIndexed(base: string, zs: ZSets, d: ItemData, record: string, c: AddCall, nums: seq<Score>, k: string)
    requires AddCallFor(base, d, record, c)
    requires |nums| == |c.keys| - 1
    requires forall i :: 0 <= i < |nums| ==> Num(nums[i]) == c.args[2..][i]
    requires IsPrefix(IndexPrefix(base, d.kind), k) && k[|IndexPrefix(base, d.kind)|..] in d.IndexedScores()
    ensures k in ZAddAll(zs, c.keys[1..], d.id, nums)
    ensures k in ZAddFields(zs, IndexPrefix(base, d.kind), d.id, d.IndexedScores())
    ensures ZAddAll(zs, c.keys[1..], d.id, nums)[k] == ZAddFields(zs, IndexPrefix(base, d.kind), d.id, d.IndexedScores())[k]
  {
    var p := IndexPrefix(base, d.kind);
    var scores := d.IndexedScores();
    var keys := c.keys[1..];
    var n := k[|p|..];
    assert k == p + n;
    assert k in keys;
    var i :| 0 <= i < |keys| && keys[i] == k;
    AddCallEntry(base, d, record, c, i);
    assert nums[i] == scores[n];
    ZAddAllAt(zs, keys, d.id, nums);
    assert ZAddAll(zs, keys, d.id, nums)[k] == ZOf(zs, k)[d.id := nums[i]];
  }

  /** Every other key is left alike by the ZADD loop and by `ZAddFields`. */
  lemma AddCallOther(base: string, zs: ZSets, d: ItemData, record: string, c: AddCall, nums: seq<Score>, k: string)
    requires AddCallFor(base, d, record, c)
    requires |nums| == |c.keys| - 1
    requires !(IsPrefix(IndexPrefix(base, d.kind), k) && k[|IndexPrefix(base, d.kind)|..] in d.IndexedScores())
    ensures k in ZAddAll(zs, c.keys[1..], d.id, nums) <==> k in zs
    ensures ZOf(ZAddAll(zs, c.keys[1..], d.id, nums), k) == ZOf(zs, k)
  {
    var keys := c.keys[1..];
    ZAddAllAt(zs, keys, d.id, nums);
    assert k !in keys by {
      forall i | 0 <= i < |keys| ensures keys[i] != k {
        AddCallEntry(base, d, record, c, i);
      }
    }
  }

  /** Running the ZADDs of a well-formed call is adding the item's scores to its indexes. */
  lemma AddCallIndexes(base: string, zs: ZSets, d: ItemData, record: string, c: AddCall)
    requires AddCallFor(base, d, record, c)
    ensures forall j :: 0 <= j < |c.args[2..]| ==> c.args[2..][j].Num?
    ensures ZAddAll(zs, c.keys[1..], d.id, Numbers(c.args[2..]))
         == ZAddFields(zs, IndexPrefix(base, d.kind), d.id, d.IndexedScores())
  {
    var p := IndexPrefix(base, d.kind);
    var args := c.args[2..];
    forall j | 0 <= j < |args| ensures args[j].Num? {
      AddCallEntry(base, d, record, c, j);
    }
    var nums := Numbers(args);
    var lhs := ZAddAll(zs, c.keys[1..], d.id, nums);
    var rhs := ZAddFields(zs, p, d.id, d.IndexedScores());
    forall k ensures (k in lhs <==> k in rhs) && (k in lhs ==> lhs[k] == rhs[k]) {
      if IsPrefix(p, k) && k[|p|..] in d.IndexedScores() {
        AddCallIndexed(base, zs, d, record, c, nums, k);
      } else {
        AddCallOther(base, zs, d, record, c, nums, k);
      }
    }
    MapsEqual(lhs, rhs);
  }

  /**
   * The argument-building loop of Add: the record key and record first, then
   * one index key and score per indexed field in the field map's (unfixed)
   * iteration order; an indexed field whose value is not Int64 or Float64
   * stops the loop with an error naming the field and its type.
   */
  method BuildAddCall(base: string, d: ItemData, record: string) returns (r: Result<AddCall, StoreError>)
    ensures r.Err? <==> !d.IndexedAreIndexable()
    ensures r.Err? ==> r.error.NotIndexable? && r.error.field in d.fields
    ensures r.Err? && r.error.NotIndexable? && r.error.field in d.fields ==>
      d.fields[r.error.field].indexed && !d.fields[r.error.field].value.IsIndexable() &&
      r.error.typeName == Name(d.fields[r.error.field].value.Type())
    ensures r.Ok? ==> AddCallFor(base, d, record, r.value)
  {
    var p := IndexPrefix(base, d.kind);
    ghost var scores := d.IndexedScores();
    var keys := [ItemKey(base, d.kind, d.id)];
    var args := [Str(d.id), Str(record)];
    var rest := d.fields.Keys;
    while rest != {}
      invariant rest <= d.fields.Keys
      invariant |keys| >= 1 && |args| == |keys| + 1
      invariant keys[0] == ItemKey(base, d.kind, d.id) && args[0] == Str(d.id) && args[1] == Str(record)
      invariant forall n :: n in d.fields && n !in rest ==> !d.fields[n].indexed || d.fields[n].value.IsIndexable()
      invariant forall j :: 1 <= j < |keys| ==> IndexEntry(base, d, keys[j], args[j + 1]) && keys[j][|p|..] !in rest
      invariant forall n :: n in scores && n !in rest ==> p + n in keys[1..]
      invariant Distinct(keys[1..])
      decreases |rest|
    {
      var n :| n in rest;
      var f := d.fields[n];
      if f.indexed {
        if f.value.IsIndexable() {
          assert (p + n)[|p|..] == n && IsPrefix(p, p + n);
          assert p + n !in keys[1..] by {
            forall j | 1 <= j < |keys| ensures keys[j] != p + n {
              assert keys[j][|p|..] != n;
            }
          }
          keys := keys + [p + n];
          args := args + [Num(f.value.Score())];
          assert keys[1..] == keys[1..|keys| - 1] + [p + n];
        } else {
          return Err(NotIndexable(n, Name(f.value.Type())));
        }
      }
      rest := rest - {n};
    }
    r := Ok(AddCall(keys, args));
  }

  class Store {
    /** The base key prefix every key of this store starts with. */
    const base: string
    /** String keys: the item records. */
    var records: map<string, string>
    /** Sorted-set keys: the field indexes. */
    var zsets: ZSets
    /** Hash keys: the declared index fields of each type. */
    var hashes: map<string, set<string>>

    function State(): Keyspace
      reads this
    {
      Keyspace(records, zsets, hashes)
    }

    /** `NewStore`: a store over a server whose keyspace is `initial`. */
    constructor (base: string, initial: Keyspace)
      ensures this.base == base && State() == initial
    {
      this.base := base;
      records := initial.records;
      zsets := initial.zsets;
      hashes := initial.hashes;
    }

    /** The Add script: SET KEYS[1] to ARGV[2], then ZADD ARGV[1] into KEYS[idx] with score ARGV[idx+1]. */
    method RunAddScript(keys: seq<string>, args: seq<Arg>)
      requires |keys| >= 1 && |args| == |keys| + 1
      requires args[0].Str? && args[1].Str?
      requires forall j :: 2 <= j < |args| ==> args[j].Num?
      modifies this
      ensures records == old(records)[keys[0] := args[1].s]
      ensures zsets == ZAddAll(old(zsets), keys[1..], args[0].s, Numbers(args[2..]))
      ensures hashes == old(hashes)
    {
      records := records[keys[0] := args[1].s];
      zsets := ZAddEach(zsets, keys, args);
    }

    /**
     * `Add`: reject a nil or invalid item and an indexed non-numeric field
     * without touching the keyspace; otherwise write the record and index
     * every indexed field, in one script run.
     */
    method Add(item: Item?) returns (err: Option<StoreError>)
      modifies this
      ensures item == null ==> err == Some(ItemNil)
      ensures item != null && item.Data().Validate().Some? ==> err == Some(InvalidItem(item.Data().Validate().value))
      ensures item != null && item.Data().Validate().None? ==> (err.Some? <==> !item.Data().IndexedAreIndexable())
      ensures item != null && item.Data().Validate().None? && err.Some? ==>
        err.value.NotIndexable? && err.value.field in item.fields && item.fields[err.value.field].indexed &&
        !item.fields[err.value.field].value.IsIndexable()
      ensures err.Some? ==> State() == old(State())
      ensures err.None? ==> item != null && ItemKey(base, item.kind, item.id) in records
      ensures err.None? && item != null && ItemKey(base, item.kind, item.id) in records ==>
        DeserializeItem(records[ItemKey(base, item.kind, item.id)]) == Ok(item.Data()) &&
        State() == AddEffect(base, old(State()), item.kind, item.id, records[ItemKey(base, item.kind, item.id)],
                             item.Data().IndexedScores())
    {
      if item == null {
        return Some(ItemNil);
      }
      var d := item.Data();
      match d.Validate() {
        case Some(e) => return Some(InvalidItem(e));
        case None =>
      }
      var record := item.Serialize();
      var call := BuildAddCall(base, d, record);
      if call.Err? {
        return Some(call.error);
      }
      var c := call.value;
      ghost var st := State();
      AddCallIndexes(base, zsets, d, record, c);
      RunAddScript(c.keys, c.args);
      assert records == st.records[ItemKey(base, d.kind, d.id) := record];
      assert zsets == ZAddFields(st.zsets, IndexPrefix(base, d.kind), d.id, d.IndexedScores());
      assert State() == AddEffect(base, st, d.kind, d.id, record, d.IndexedScores());
      err := None;
    }

    /**
     * The Remove script: ZREM ARGV[1] from every key `KEYS ARGV[2]*` returns,
     * in the order KEYS returns them, then DEL KEYS[1], answering how many
     * keys it deleted.
     */
    method RunRemoveScript(itemKey: string, id: string, indexPrefix: string) returns (deleted: int)
      modifies this
      ensures deleted == (if itemKey in old(records) then 1 else 0)
      ensures records == old(records) - {itemKey}
      ensures zsets == ZRemSet(old(zsets), KeysWithPrefix(old(zsets), indexPrefix), id)
      ensures hashes == old(hashes)
    {
      zsets := ZRemEach(zsets, KeysWithPrefix(zsets, indexPrefix), id);
      deleted := if itemKey in records then 1 else 0;
      records := records - {itemKey};
    }

    /** `Remove`: argument checks, then the script; the answer is whether the record existed. */
    method Remove(kind: string, id: string) returns (r: Result<bool, StoreError>)
      modifies this
      ensures kind == "" ==> r == Err(KindEmpty)
      ensures kind != "" && id == "" ==> r == Err(IdEmpty)
      ensures r.Err? ==> State() == old(State())
      ensures kind != "" && id != "" ==>
        r == Ok(ItemKey(base, kind, id) in old(records)) &&
        State() == RemoveEffect(base, old(State()), kind, id)
    {
      if kind == "" {
        return Err(KindEmpty);
      }
      if id == "" {
        return Err(IdEmpty);
      }
      var deleted := RunRemoveScript(ItemKey(base, kind, id), id, IndexPrefix(base, kind));
      r := Ok(deleted == 1);
    }

    /** HSET key followed by field/value pairs; with no pair Redis rejects the command. */
    method HSet(key: string, values: seq<Arg>) returns (err: Option<StoreError>)
      requires |values| % 2 == 0
      modifies this
      ensures values == [] ==> err == Some(HSetWithoutFields) && State() == old(State())
      ensures values != [] ==> err.None?
      ensures values != [] ==> records == old(records) && zsets == old(zsets)
      ensures values != [] ==> hashes == old(hashes)[key := HashOf(old(hashes), key) + PairNames(values)]
    {
      if values == [] {
        return Some(HSetWithoutFields);
      }
      hashes := hashes[key := HashOf(hashes, key) + PairNames(values)];
      err := None;
    }

    /**
     * `DefineType`: HSET the type key with each index name paired with 1;
     * declarations accumulate.
     */
    method DefineType(typeName: string, indexes: seq<string>) returns (err: Option<StoreError>)
      modifies this
      ensures typeName == "" ==> err == Some(EmptyTypeName)
      ensures typeName != "" && indexes == [] ==> err == Some(HSetWithoutFields)
      ensures err.Some? ==> State() == old(State())
      ensures typeName != "" && indexes != [] ==>
        err.None? && State() == DefineTypeEffect(base, old(State()), typeName, set n | n in indexes)
    {
      if typeName == "" {
        return Some(EmptyTypeName);
      }
      var values := DefineTypeValues(indexes);
      PairNamesOfValues(indexes, values);
      err := HSet(TypeKey(base, typeName), values);
    }

    /** `Get`: one GET and a decode; the keyspace is only read. */
    method Get(kind: string, id: string) returns (r: Result<Option<ItemData>, StoreError>)
      ensures r == Queries.Get(base, State(), kind, id)
    {
      if kind == "" {
        return Err(KindEmpty);
      }
      if id == "" {
        return Err(IdEmpty);
      }
      var key := ItemKey(base, kind, id);
      if key !in records {
        return Ok(None);
      }
      match DeserializeItem(records[key]) {
        case Err(e) => r := Err(DecodeFailed(e));
        case Ok(d) => r := Ok(Some(d));
      }
    }

    /**
     * The List script: no reply when the field is not declared; otherwise
     * the lookahead flag and one GET reply per member of the window.
     */
    method RunListScript(typeKey: string, indexKey: string, reverse: bool, offset: nat, limit: nat,
                         itemPrefix: string, field: string)
      returns (r: Option<(bool, seq<Option<string>>)>)
      ensures field !in HashOf(hashes, typeKey) ==> r.None?
      ensures field in HashOf(hashes, typeKey) ==>
        var w := ListWindow(ZOf(zsets, indexKey), reverse, offset, limit);
        r == Some((w.hasMore, FetchRecords(records, itemPrefix, w.ids)))
    {
      if field !in HashOf(hashes, typeKey) {
        return None;
      }
      var itemIds := ZRange(ZOf(zsets, indexKey), offset, offset + limit, reverse);
      var hasMore := false;
      if |itemIds| > limit {
        hasMore := true;
        itemIds := itemIds[..|itemIds| - 1];
      }
      var res: seq<Option<string>> := [];
      var idx := 0;
      while idx < |itemIds|
        invariant 0 <= idx <= |itemIds|
        invariant res == FetchRecords(records, itemPrefix, itemIds[..idx])
      {
        assert itemIds[..idx + 1][..idx] == itemIds[..idx];
        res := res + [GetRecord(records, itemPrefix + itemIds[idx])];
        idx := idx + 1;
      }
      assert itemIds[..idx] == itemIds;
      r := Some((hasMore, res));
    }

    /** The decode loop of List: every reply decoded in order; the first failure ends the call. */
    method DecodeReplies(entries: seq<Option<string>>) returns (r: Result<seq<ItemData>, StoreError>)
      ensures r == DecodeRecords(entries)
    {
      var items: seq<ItemData> := [];
      var i := 0;
      while i < |entries|
        invariant 0 <= i <= |entries| && |items| == i
        invariant forall j :: 0 <= j < i ==> DecodesTo(entries[j], items[j])
      {
        match entries[i] {
          case None =>
            DecodeRecordsFails(entries, i);
            return Err(RecordMissing);
          case Some(v) =>
            match DeserializeItem(v) {
              case Err(e) =>
                DecodeRecordsFails(entries, i);
                return Err(DecodeFailed(e));
              case Ok(d) =>
                items := items + [d];
            }
        }
        i := i + 1;
      }
      DecodeRecordsAll(entries, items);
      r := Ok(items);
    }

    /** `List`: argument checks, the script, then the decode loop; the keyspace is only read. */
    method List(typeName: string, sortBy: string, descending: bool, offset: int64, limit: int64)
      returns (r: Result<Page, StoreError>)
      ensures r == Queries.List(base, State(), typeName, sortBy, descending, offset as int, limit as int)
    {
      match CheckListArgs(typeName, sortBy, offset as int, limit as int) {
        case Some(e) => return Err(e);
        case None =>
      }
      var reply := RunListScript(TypeKey(base, typeName), IndexKey(base, typeName, sortBy), descending,
                                 offset as int, limit as int, ItemPrefix(base, typeName), sortBy);
      match reply {
        case None => return Err(SortByNotIndexed(sortBy));
        case Some((hasMore, entries)) =>
          var items := DecodeReplies(entries);
          match items {
            case Err(e) => r := Err(e);
            case Ok(its) => r := Ok(Page(its, hasMore));
          }
      }
    }
  }

  /** The loop of the Add script: for idx = 2..#KEYS, ZADD KEYS[idx] ARGV[idx+1] ARGV[1]. */
  method ZAddEach(zs: ZSets, keys: seq<string>, args: seq<Arg>) returns (r: ZSets)
    requires |keys| >= 1 && |args| == |keys| + 1
    requires args[0].Str?
    requires forall j :: 2 <= j < |args| ==> args[j].Num?
    ensures r == ZAddAll(zs, keys[1..], args[0].s, Numbers(args[2..]))
  {
    ghost var indexKeys := keys[1..];
    ghost var scores := Numbers(args[2..]);
    r := zs;
    var idx := 1;
    while idx < |keys|
      invariant 1 <= idx <= |keys|
      invariant r == ZAddAll(zs, indexKeys[..idx - 1], args[0].s, scores[..idx - 1])
    {
      ZAddAllSnoc(zs, indexKeys, args[0].s, scores, idx - 1);
      assert indexKeys[idx - 1] == keys[idx] && Num(scores[idx - 1]) == args[idx + 1];
      r := ZAdd(r, keys[idx], args[0].s, args[idx + 1].n);
      idx := idx + 1;
    }
    assert indexKeys[..idx - 1] == indexKeys && scores[..idx - 1] == scores;
  }

  /** The loop of the Remove script: ZREM `member` from each key of `indexKeys`, in whatever order KEYS returned them. */
  method ZRemEach(zs: ZSets, indexKeys: set<string>, member: string) returns (r: ZSets)
    ensures r == ZRemSet(zs, indexKeys, member)
  {
    r := zs;
    var rest := indexKeys;
    ghost var done: set<string> := {};
    ZRemSetNone(zs, member);
    while rest != {}
      invariant rest + done == indexKeys && rest !! done
      invariant r == ZRemSet(zs, done, member)
      decreases |rest|
    {
      var k :| k in rest;
      ZRemSetStep(zs, done, k, member);
      r := ZRem(r, k, member);
      done := done + {k};
      rest := rest - {k};
    }
    assert done == indexKeys;
  }

  /** The field names of an HSET argument list: its even-numbered entries. */
  function PairNames(values: seq<Arg>): (r: set<string>)
    ensures forall j :: 0 <= j < |values| && j % 2 == 0 && values[j].Str? ==> values[j].s in r
  {
    set j | 0 <= j < |values| && j % 2 == 0 && values[j].Str? :: values[j].s
  }

  /** DefineType's argument loop: each index name, then the number 1. */
  method DefineTypeValues(indexes: seq<string>) returns (values: seq<Arg>)
    ensures |values| == 2 * |indexes|
    ensures forall i :: 0 <= i < |indexes| ==> values[2 * i] == Str(indexes[i]) && values[2 * i + 1] == Num(1)
  {
    values := [];
    for i := 0 to |indexes|
      invariant |values| == 2 * i
      invariant forall k :: 0 <= k < i ==> values[2 * k] == Str(indexes[k]) && values[2 * k + 1] == Num(1)
    {
      values := values + [Str(indexes[i]), Num(1)];
    }
  }

  /** The names DefineType's HSET declares are exactly the index names. */
  lemma PairNamesOfValues(indexes: seq<string>, values: seq<Arg>)
    requires |values| == 2 * |indexes|
    requires forall i :: 0 <= i < |indexes| ==> values[2 * i] == Str(indexes[i]) && values[2 * i + 1] == Num(1)
    ensures |values| % 2 == 0
    ensures PairNames(values) == set n | n in indexes
    ensures values == [] <==> indexes == []
  {
    forall n | n in PairNames(values) ensures n in indexes {
      var j :| 0 <= j < |values| && j % 2 == 0 && values[j].Str? && values[j].s == n;
      assert values[2 * (j / 2)] == Str(indexes[j / 2]);
    }
    forall n | n in indexes ensures n in PairNames(values) {
      var i :| 0 <= i < |indexes| && indexes[i] == n;
      assert values[2 * i] == Str(n);
    }
  }
}
