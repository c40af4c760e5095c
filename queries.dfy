/**
 * The read side of the store as functions of the keyspace: `Get`
 * (store_get.go) and `List` (store_list.go), with the errors both report, and
 * the laws of pagination. The Store class's methods are proved to compute
 * these functions.
 */
module Queries {
  import opened Wrappers
  import opened Fields
  import opened Codec
  import opened SortedSets
  import opened Keyspace

  datatype StoreError =
    | ItemNil
    | InvalidItem(reason: ValidationError)
    | NotIndexable(field: string, typeName: string)
    | KindEmpty
    | IdEmpty
    | EmptyTypeName
    | EmptySortBy
    | InvalidOffset(offset: int)
    | InvalidLimit(limit: int)
    | SortByNotIndexed(field: string)
    | DecodeFailed(cause: CodecError)
    | RecordMissing
    | HSetWithoutFields

  /** GET of a string key: the stored value, or nil. */
  function GetRecord(records: map<string, string>, key: string): Option<string> {
    if key in records then Some(records[key]) else None
  }

  /** `Store.Get`: argument checks, then the record decoded; a missing record is not an error. */
  function Get(base: string, st: Keyspace, kind: string, id: string): (r: Result<Option<ItemData>, StoreError>)
    ensures r == Err(KindEmpty) <==> kind == ""
    ensures r == Err(IdEmpty) <==> kind != "" && id == ""
    ensures r == Ok(None) <==> kind != "" && id != "" && ItemKey(base, kind, id) !in st.records
    ensures r.Ok? && r.value.Some? ==>
      ItemKey(base, kind, id) in st.records && DeserializeItem(st.records[ItemKey(base, kind, id)]) == Ok(r.value.value)
    ensures kind != "" && id != "" && ItemKey(base, kind, id) in st.records ==>
      match DeserializeItem(st.records[ItemKey(base, kind, id)])
      case Ok(d) => r == Ok(Some(d))
      case Err(e) => r == Err(DecodeFailed(e))
  {
    if kind == "" then Err(KindEmpty)
    else if id == "" then Err(IdEmpty)
    else
      match GetRecord(st.records, ItemKey(base, kind, id))
      case None => Ok(None)
      case Some(v) =>
        match DeserializeItem(v)
        case Err(e) => Err(DecodeFailed(e))
        case Ok(d) => Ok(Some(d))
  }

  /** The members the List script keeps, and whether it saw the lookahead member. */
  datatype Window = Window(ids: seq<string>, hasMore: bool)

  /**
   * ZRANGE (or ZREVRANGE) of ranks offset..offset+limit inclusive, that is one
   * member more than a page; the extra member, when present, sets hasMore and
   * is dropped.
   */
  function ListWindow(z: ZSet, descending: bool, offset: nat, limit: nat): (w: Window)
    ensures |w.ids| <= limit
    ensures w.hasMore <==> |z| > offset + limit
    ensures w.ids == Ordered(z, descending)[if offset < |z| then offset else |z|..if offset + limit < |z| then offset + limit else |z|]
  {
    var fetched := ZRange(z, offset, offset + limit, descending);
    if |fetched| > limit then Window(fetched[..|fetched| - 1], true) else Window(fetched, false)
  }

  /** The GET loop of the List script: one reply per member, nil for a missing record. */
  function FetchRecords(records: map<string, string>, prefix: string, ids: seq<string>): (r: seq<Option<string>>)
    ensures |r| == |ids|
    ensures forall i :: 0 <= i < |ids| ==> r[i] == GetRecord(records, prefix + ids[i])
  {
    if ids == [] then []
    else FetchRecords(records, prefix, ids[..|ids| - 1]) + [GetRecord(records, prefix + ids[|ids| - 1])]
  }

  /** Whether one reply of the script decodes to an item. */
  predicate Decodes(e: Option<string>) {
    e.Some? && DeserializeItem(e.value).Ok?
  }

  /** The reply is present and decodes to `d`. */
  predicate DecodesTo(e: Option<string>, d: ItemData) {
    e.Some? && DeserializeItem(e.value) == Ok(d)
  }

  /** Reply i is the first that does not decode. */
  predicate FirstFailure(entries: seq<Option<string>>, i: int) {
    0 <= i < |entries| && !Decodes(entries[i]) && forall j :: 0 <= j < i ==> Decodes(entries[j])
  }

  /** The error a reply that does not decode produces. */
  function FailureOf(e: Option<string>): StoreError
    requires !Decodes(e)
  {
    if e.None? then RecordMissing else DecodeFailed(DeserializeItem(e.value).error)
  }

  /**
   * The Go loop over the script's replies: a nil reply (a member without a
   * record) or an undecodable one fails the whole call; the first such reply
   * decides the error.
   */
  function DecodeRecords(entries: seq<Option<string>>): (r: Result<seq<ItemData>, StoreError>)
    ensures r.Ok? ==> |r.value| == |entries|
    ensures r.Err? ==> r.error == RecordMissing || r.error.DecodeFailed?
  {
    if entries == [] then Ok([])
    else
      match entries[0]
      case None => Err(RecordMissing)
      case Some(v) =>
        match DeserializeItem(v)
        case Err(e) => Err(DecodeFailed(e))
        case Ok(d) =>
          match DecodeRecords(entries[1..])
          case Err(e) => Err(e)
          case Ok(items) => Ok([d] + items)
  }

  /** One step of the decode loop: a reply that decodes, then replies that all decode. */
  lemma DecodeRecordsCons(entries: seq<Option<string>>, d: ItemData, rest: seq<ItemData>)
    requires entries != [] && entries[0].Some? && DeserializeItem(entries[0].value) == Ok(d)
    requires DecodeRecords(entries[1..]) == Ok(rest)
    ensures DecodeRecords(entries) == Ok([d] + rest)
  {
  }

  /** The loop succeeds exactly when every reply decodes, and then yields the decoded items in order. */
  lemma {:induction false} DecodeRecordsOk(entries: seq<Option<string>>)
    ensures DecodeRecords(entries).Ok? <==> forall i :: 0 <= i < |entries| ==> Decodes(entries[i])
    ensures DecodeRecords(entries).Ok? ==>
      forall i :: 0 <= i < |entries| ==> DeserializeItem(entries[i].value) == Ok(DecodeRecords(entries).value[i])
  {
    if entries != [] {
      DecodeRecordsOk(entries[1..]);
      assert forall i :: 1 <= i < |entries| ==> entries[i] == entries[1..][i - 1];
    }
  }

  /** When the loop fails, the error is that of the first reply that does not decode. */
  lemma {:induction false} DecodeRecordsFails(entries: seq<Option<string>>, i: int)
    requires FirstFailure(entries, i)
    ensures DecodeRecords(entries) == Err(FailureOf(entries[i]))
  {
    if i > 0 {
      assert forall j :: 0 <= j < |entries| - 1 ==> entries[1..][j] == entries[j + 1];
      assert FirstFailure(entries[1..], i - 1) by {
        assert Decodes(entries[0]);
      }
      DecodeRecordsFails(entries[1..], i - 1);
    }
  }

  /** When every reply decodes, the loop yields exactly the decoded items. */
  lemma {:induction false} DecodeRecordsAll(entries: seq<Option<string>>, items: seq<ItemData>)
    requires |items| == |entries|
    requires forall j :: 0 <= j < |entries| ==> DecodesTo(entries[j], items[j])
    ensures DecodeRecords(entries) == Ok(items)
  {
    if entries != [] {
      forall j | 0 <= j < |entries| - 1 ensures DecodesTo(entries[1..][j], items[1..][j]) {
        assert entries[1..][j] == entries[j + 1] && items[1..][j] == items[j + 1];
      }
      DecodeRecordsAll(entries[1..], items[1..]);
      assert DecodesTo(entries[0], items[0]);
      DecodeRecordsCons(entries, items[0], items[1..]);
      assert items == [items[0]] + items[1..];
    }
  }

  /** One page of `List`: the items and whether more follow. */
  datatype Page = Page(items: seq<ItemData>, hasMore: bool)

  /** The argument checks of `List`, in the source's order. */
  function CheckListArgs(typeName: string, sortBy: string, offset: int, limit: int): (r: Option<StoreError>)
    ensures r.None? <==> typeName != "" && sortBy != "" && offset >= 0 && limit >= 0
    ensures r == Some(EmptyTypeName) <==> typeName == ""
    ensures r == Some(EmptySortBy) <==> typeName != "" && sortBy == ""
    ensures r == Some(InvalidOffset(offset)) <==> typeName != "" && sortBy != "" && offset < 0
    ensures r == Some(InvalidLimit(limit)) <==> typeName != "" && sortBy != "" && offset >= 0 && limit < 0
  {
    if typeName == "" then Some(EmptyTypeName)
    else if sortBy == "" then Some(EmptySortBy)
    else if offset < 0 then Some(InvalidOffset(offset))
    else if limit < 0 then Some(InvalidLimit(limit))
    else None
  }

  /** The index `List` reads. */
  function IndexOf(base: string, st: Keyspace, typeName: string, sortBy: string): ZSet {
    ZOf(st.zsets, IndexKey(base, typeName, sortBy))
  }

  /** `Store.List`: what the page is, as a function of the keyspace. */
  function List(base: string, st: Keyspace, typeName: string, sortBy: string, descending: bool, offset: int, limit: int)
    : (r: Result<Page, StoreError>)
    ensures CheckListArgs(typeName, sortBy, offset, limit).Some? ==> r == Err(CheckListArgs(typeName, sortBy, offset, limit).value)
    ensures CheckListArgs(typeName, sortBy, offset, limit).None? ==>
      (r == Err(SortByNotIndexed(sortBy)) <==> sortBy !in HashOf(st.hashes, TypeKey(base, typeName)))
    ensures r.Ok? ==> |r.value.items| <= limit
    ensures r.Ok? ==> (r.value.hasMore <==> |IndexOf(base, st, typeName, sortBy)| > offset + limit)
  {
    match CheckListArgs(typeName, sortBy, offset, limit)
    case Some(e) => Err(e)
    case None =>
      if sortBy !in HashOf(st.hashes, TypeKey(base, typeName)) then Err(SortByNotIndexed(sortBy))
      else
        var w := ListWindow(IndexOf(base, st, typeName, sortBy), descending, offset, limit);
        match DecodeRecords(FetchRecords(st.records, ItemPrefix(base, typeName), w.ids))
        case Err(e) => Err(e)
        case Ok(items) => Ok(Page(items, w.hasMore))
  }

  /**
   * The items of a page are the decoded records of the window's members, in
   * rank order; the page fails exactly when one of those members has no
   * record or a record that does not decode.
   */
  lemma ListItems(base: string, st: Keyspace, typeName: string, sortBy: string, descending: bool, offset: nat, limit: nat)
    requires typeName != "" && sortBy != ""
    requires sortBy in HashOf(st.hashes, TypeKey(base, typeName))
    ensures
      var w := ListWindow(IndexOf(base, st, typeName, sortBy), descending, offset, limit);
      var r := List(base, st, typeName, sortBy, descending, offset, limit);
      (r.Ok? <==> forall i :: 0 <= i < |w.ids| ==>
         ItemKey(base, typeName, w.ids[i]) in st.records && DeserializeItem(st.records[ItemKey(base, typeName, w.ids[i])]).Ok?) &&
      (r.Ok? ==> |r.value.items| == |w.ids|) &&
      (r.Ok? ==> forall i :: 0 <= i < |w.ids| ==> DeserializeItem(st.records[ItemKey(base, typeName, w.ids[i])]) == Ok(r.value.items[i]))
  {
    var w := ListWindow(IndexOf(base, st, typeName, sortBy), descending, offset, limit);
    var entries := FetchRecords(st.records, ItemPrefix(base, typeName), w.ids);
    DecodeRecordsOk(entries);
  }

  /** Replies that are all present never report a missing record. */
  lemma {:induction false} DecodeRecordsPresent(entries: seq<Option<string>>)
    requires forall i :: 0 <= i < |entries| ==> entries[i].Some?
    ensures DecodeRecords(entries) != Err(RecordMissing)
  {
    if entries != [] {
      assert forall i :: 0 <= i < |entries| - 1 ==> entries[1..][i] == entries[i + 1];
      DecodeRecordsPresent(entries[1..]);
    }
  }

  /** While every index member has a record, every GET of a window finds one. */
  lemma WindowHasRecords(base: string, st: Keyspace, typeName: string, sortBy: string, descending: bool, offset: nat, limit: nat)
    requires IndexesHaveRecords(base, st) && NoColon(typeName)
    ensures var w := ListWindow(IndexOf(base, st, typeName, sortBy), descending, offset, limit);
      forall i :: 0 <= i < |w.ids| ==> FetchRecords(st.records, ItemPrefix(base, typeName), w.ids)[i].Some?
  {
    var z := IndexOf(base, st, typeName, sortBy);
    var o := Ordered(z, descending);
    var w := ListWindow(z, descending, offset, limit);
    var entries := FetchRecords(st.records, ItemPrefix(base, typeName), w.ids);
    OrderedMembers(z, descending);
    var lo := if offset < |z| then offset else |z|;
    var hi := if offset + limit < |z| then offset + limit else |z|;
    assert w.ids == o[lo..hi];
    forall i | 0 <= i < |w.ids| ensures entries[i].Some? {
      SliceMember(o, lo, hi, i);
      assert w.ids[i] in z;
      IndexMemberHasRecord(base, st, typeName, sortBy, w.ids[i]);
      assert entries[i] == GetRecord(st.records, ItemKey(base, typeName, w.ids[i]));
    }
  }

  /**
   * While every index member has a record, List never meets a member without
   * one: the nil reply on which the source's type assertion would panic does
   * not arise.
   */
  lemma ListFindsRecords(base: string, st: Keyspace, typeName: string, sortBy: string, descending: bool, offset: int, limit: int)
    requires IndexesHaveRecords(base, st) && NoColon(typeName)
    ensures List(base, st, typeName, sortBy, descending, offset, limit) != Err(RecordMissing)
  {
    if CheckListArgs(typeName, sortBy, offset, limit).None? && sortBy in HashOf(st.hashes, TypeKey(base, typeName)) {
      var w := ListWindow(IndexOf(base, st, typeName, sortBy), descending, offset, limit);
      WindowHasRecords(base, st, typeName, sortBy, descending, offset, limit);
      DecodeRecordsPresent(FetchRecords(st.records, ItemPrefix(base, typeName), w.ids));
    }
  }

  lemma SliceMember<T>(s: seq<T>, lo: nat, hi: nat, i: nat)
    requires lo <= hi <= |s| && i < hi - lo
    ensures s[lo..hi][i] in s
  {
    assert s[lo..hi][i] == s[lo + i];
  }

  lemma SliceSplit<T>(s: seq<T>, lo: nat, mid: nat, front: seq<T>, back: seq<T>)
    requires lo <= mid <= |s| && front == s[lo..mid] && back == s[mid..]
    ensures front + back == s[lo..]
  {
  }

  lemma SliceToEnd<T>(s: seq<T>, lo: nat, front: seq<T>)
    requires lo <= |s| && front == s[lo..|s|]
    ensures front == s[lo..]
  {
  }

  /**
   * Pagination as store_test.go drives it: list from offset 0, advance the
   * offset by the limit while hasMore. These are the members the pages hold.
   */
  function WindowsFrom(z: ZSet, descending: bool, offset: nat, limit: nat): seq<string>
    requires limit > 0
    decreases |z| - offset
  {
    var w := ListWindow(z, descending, offset, limit);
    if w.hasMore then w.ids + WindowsFrom(z, descending, offset + limit, limit) else w.ids
  }

  /** Pagination completeness: the pages hold the whole index, in rank order, each member once. */
  lemma {:induction false} WindowsCoverIndex(z: ZSet, descending: bool, offset: nat, limit: nat)
    requires limit > 0 && offset <= |z|
    ensures WindowsFrom(z, descending, offset, limit) == Ordered(z, descending)[offset..]
    decreases |z| - offset
  {
    var o := Ordered(z, descending);
    var w := ListWindow(z, descending, offset, limit);
    if w.hasMore {
      WindowsCoverIndex(z, descending, offset + limit, limit);
      SliceSplit(o, offset, offset + limit, w.ids, o[offset + limit..]);
    } else {
      SliceToEnd(o, offset, w.ids);
    }
  }

  /** Add then Get: the record Add wrote reads back as the item. */
  lemma GetAfterAdd(base: string, st: Keyspace, d: ItemData, record: string, scores: map<string, Score>)
    requires d.Validate().None?
    requires DeserializeItem(record) == Ok(d)
    ensures Get(base, AddEffect(base, st, d.kind, d.id, record, scores), d.kind, d.id) == Ok(Some(d))
  {
  }

  /** Get after Remove reports not found, and Remove under one kind does not hide another kind's item. */
  lemma GetAfterRemove(base: string, st: Keyspace, kind: string, id: string, other: string)
    requires kind != "" && id != ""
    requires NoColon(kind) && NoColon(other) && other != kind
    ensures Get(base, RemoveEffect(base, st, kind, id), kind, id) == Ok(None)
    ensures Get(base, RemoveEffect(base, st, kind, id), other, id) == Get(base, st, other, id)
  {
    if ItemKey(base, other, id) == ItemKey(base, kind, id) {
      ItemKeyInjective(base, other, id, kind, id);
    }
  }

  /** After DefineType, listing by any declared field passes the declared-field check. */
  lemma ListAfterDefineType(base: string, st: Keyspace, typeName: string, names: set<string>, sortBy: string, descending: bool, offset: int, limit: int)
    requires sortBy in names
    requires CheckListArgs(typeName, sortBy, offset, limit).None?
    ensures List(base, DefineTypeEffect(base, st, typeName, names), typeName, sortBy, descending, offset, limit)
         != Err(SortByNotIndexed(sortBy))
  {
  }

  /** An item whose field is present but not indexed does not enter that field's index. */
  lemma NonIndexedFieldNotListed(base: string, st: Keyspace, d: ItemData, record: string, f: string)
    requires f in d.fields && !d.fields[f].indexed
    requires d.id !in ZOf(st.zsets, IndexKey(base, d.kind, f))
    ensures d.id !in ZOf(AddEffect(base, st, d.kind, d.id, record, d.IndexedScores()).zsets, IndexKey(base, d.kind, f))
  {
    AddIndexesFields(base, st, d.kind, d.id, record, d.IndexedScores(), f, IndexKey(base, d.kind, f));
  }
}
