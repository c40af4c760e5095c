# toy item store, modelled in Dafny

The toy package keeps items in Redis. An item has a kind, an id and a map of
typed fields. Its primary record is a string key `<base>item:<kind>:<id>`
holding the serialized item. For every indexed field there is a sorted set,
`<base>index:<kind>:<field>`, whose members are item ids scored by the
field's numeric value. A type hash, `<base>type:<typeName>`, records which
fields may be used to sort a listing. The store's writes run as Lua scripts,
each atomic on the server: Add sets the record and adds the id to the
indexes, and Remove takes the id out of every index of the kind and then
deletes the record. Get decodes one record. List checks the type hash,
ranges over one index with a lookahead member that yields the "has more"
flag, and fetches and decodes the record of each id it keeps.

The model has the following parts:

- `ItemValueTypes` (item_value_type.dfy): the four type tags and their names.
- `Fields` (fields.dfy): the value of an item and its type-checked accessors.
- `Items` (item.dfy): the `Item` class, whose builder methods update its field
  map in place, with `FieldNames` and `Serialize` as loops over that map.
- `Codec` (codec.dfy): a concrete, length-prefixed encoding that stands in for
  gob, with `DeserializeItem` reading back what `Serialize` writes.
- `SortedSets` and `StringOrder` (sorted_sets.dfy, string_order.dfy): Redis
  sorted sets ranked by (score, member), and the ZADD, ZREM, ZRANGE and
  ZREVRANGE commands.
- `Keyspace` (keyspace.dfy): the key layout, the keyspace value (string,
  sorted-set and hash keys), the effect of each script as a function on it,
  and the invariant that every index member has a record.
- `Queries` (queries.dfy): Get and List as functions of the keyspace, with
  pagination and the laws that relate the operations.
- `Stores` (store.dfy): the `Store` class, whose fields are the keyspace.
  Each script is one method, the atomic step. Every operation is proved to
  compute the corresponding effect or query function.

The key segments are the concrete strings `item:`, `index:` and `type:`.
The source's own constants for them are not part of this model. The proofs
rely on no segment being a prefix of another, as stated under "## Left out".

## Model

| member | source | states |
|---|---|---|
| ItemValueTypes.ConstantsDistinct | item_value_type.go:5-10 | The four tags are pairwise distinct, and they are exactly the values 1 to 4. |
| ItemValueTypes.Name | item_value_type.go:12-24 | Any, Int64, Float64 and String are named "any", "int64", "float64" and "string"; the name is empty exactly for an undeclared value. |
| ItemValueTypes.NameInjective | item_value_type.go:12-24 | Distinct declared tags have distinct names. |
| Fields.Value.Type | item.go:64-68 | Every payload carries a declared tag, and the tag matches the payload's kind (Int64 exactly for an int64 payload, and so on). |
| Fields.ItemData.Validate | item.go:50-58 | Validation passes iff kind and id are both non-empty; an empty kind is reported first, then an empty id. |
| Fields.ItemData.GetField | item.go:132-136 | The field is returned iff it exists, and it is the stored field. |
| Fields.ItemData.LookupInt64 | item.go:138-147 | Reports present iff the field exists with tag Int64, and the value is then its payload; otherwise (0, false), so a wrong type reads as absent. |
| Fields.ItemData.GetInt64 | item.go:149-158 | Equals the value part of LookupInt64, including the zero default. |
| Fields.ItemData.LookupFloat64 | item.go:160-169 | Present iff the field exists with tag Float64, with its payload; otherwise (0, false). |
| Fields.ItemData.GetFloat64 | item.go:171-180 | Equals the value part of LookupFloat64. |
| Fields.ItemData.LookupString | item.go:182-191 | Present iff the field exists with tag String, with its payload; otherwise ("", false). |
| Fields.ItemData.GetString | item.go:193-202 | Equals the value part of LookupString. |
| Fields.ItemData.LookupAny | item.go:204-213 | Present iff the field exists with tag Any, with its payload; otherwise (nil, false). |
| Fields.ItemData.GetAny | item.go:215-224 | Equals the value part of LookupAny. |
| Fields.LookupsAreExclusive | item.go:138-213 | At most one typed lookup reports a field present, and some lookup does whenever the field exists. |
| Fields.ItemData.IndexedScores | store_add.go:49-58 | The scores Add indexes: one per indexed field of a numeric type, with that field's value. |
| Items.Item.constructor | item.go:16-22 | A new item has the given kind and id and no fields. |
| Items.Item.Put | item.go:64-69 | Replaces exactly field `name`, leaves every other field and the kind and id as they were, and returns the receiver. |
| Items.Item.AddInt64 | item.go:60-70 | Sets field `name` to an unindexed Int64 value, overwriting any earlier field of that name; nothing else changes; the same item is returned. |
| Items.Item.AddFloat64 | item.go:72-82 | As AddInt64, with an unindexed Float64 value. |
| Items.Item.AddString | item.go:84-94 | As AddInt64, with an unindexed String value. |
| Items.Item.AddAny | item.go:96-106 | As AddInt64, with an unindexed Any value. |
| Items.Item.AddInt64Indexed | item.go:108-118 | As AddInt64, with the Indexed flag set. |
| Items.Item.AddFloat64Indexed | item.go:120-130 | As AddFloat64, with the Indexed flag set. |
| Items.BuildersIndexOnlyNumbers | item.go:60-130 | A builder keeps "every indexed field is Int64 or Float64", so Add's not-indexable error cannot arise from built items. |
| Items.Item.FieldNames | item.go:226-232 | Each field name is returned exactly once: the length is the map's size, membership is the map's keys, and there are no repeats. |
| Items.Item.Serialize | item.go:234-250 | Whatever order the map is iterated in, DeserializeItem of the result is exactly the item (the round trip). |
| Codec.DeserializeItem | item.go:24-40 | Decoding reads the kind, then the id, then the fields; it fails with the kind's error exactly when the kind does not parse, and with the id's error exactly when the kind parses but the id does not. |
| Codec.DeserializeFramed | item.go:24-40 | Kind, id and field map are read back in the order Serialize writes them. |
| Codec.DeserializeSound | item.go:24-40 | Whatever decoding accepts is a kind, an id and a field map framed exactly as Serialize writes them. |
| SortedSets.OrderedMembers | store_list.go:67-70 | The ordered members of a sorted set are its members, each exactly once. |
| SortedSets.OrderedSorted | store_list.go:67-70 | ZRANGE order is ascending by score with ties by member ascending; ZREVRANGE order is the exact reverse. |
| SortedSets.ZRange | store_list.go:26 | With non-negative indexes, the range is the ranks from start to stop inclusive, clipped to the set's size, and empty past the end. |
| SortedSets.ZAdd | store_add.go:20 | ZADD inserts the member or replaces its score in one key and leaves every other key alone. |
| SortedSets.ZRem | store_remove.go:20 | ZREM drops the member from one key, deletes a set it empties, and leaves every other key alone. |
| SortedSets.ZAddAllAt | store_add.go:19-21 | ZADD into distinct keys in turn gives each listed key the member with its own score and changes no other key. |
| SortedSets.ZRemSet | store_remove.go:18-21 | ZREM from a set of keys drops the member from each of them, in any order, and leaves the other keys alone. |
| SortedSets.ZRemSetStep | store_remove.go:19-21 | One more ZREM extends the set of keys already processed, whichever key comes next. |
| Keyspace.ItemKey | store_add.go:41-43 | The record key is the id under its kind's item prefix, the prefix List's GET loop prepends to each id. |
| Keyspace.IndexKey | store_add.go:52-53 | The index key is the field under its kind's index prefix, the prefix Remove scans. |
| Keyspace.TypeKey | store_list.go:65 | The type key is the type name under the base prefix's type segment. |
| Keyspace.AddEffect | store_add.go:17-22 | The Add script: the record key holds the new record, every other record is as before, each scored field's index holds the id with its score, and the hashes are untouched. |
| Keyspace.RemoveEffect | store_remove.go:17-23 | The Remove script: the record key is deleted, every sorted set outside the kind's index prefix is as before, and the hashes are untouched. |
| Keyspace.DefineTypeEffect | store_define_type.go:23 | The HSET: the type hash gains the names, every other hash is as before, and records and indexes are untouched. |
| Keyspace.NamespacesDisjoint | store_add.go:42-53 | A record key, an index key and a type key are never the same key. |
| Keyspace.ItemKeyInjective | store_add.go:42 | Record keys of colon-free kinds determine the kind and the id. |
| Keyspace.IndexKeyInjective | store_add.go:52-53 | Index keys of one kind determine the field. |
| Keyspace.IndexPrefixOwnKind | store_remove.go:42 | The prefix Remove scans matches an index key of a colon-free kind iff it is an index key of the kind being removed. |
| Keyspace.KeysWithPrefix | store_remove.go:18 | The keys KEYS returns are exactly the sorted-set keys that start with the prefix; other key types are assumed absent there, as stated under "## Left out". |
| Keyspace.ZAddFields | store_add.go:19-21 | Each field's index gains the id with that field's score; every key outside those indexes keeps its set. |
| Keyspace.AddPreservesIndexesHaveRecords | store_add.go:17-22 | If every index member has a record before Add of a colon-free kind, that still holds after it. |
| Keyspace.RemovePreservesIndexesHaveRecords | store_remove.go:17-23 | If every index member has a record before Remove of a colon-free kind, that still holds after it. |
| Keyspace.RemoveRetractsId | store_remove.go:17-23 | After Remove, the record is gone and the id is in no index of its kind; every other membership, score and record is as before. |
| Keyspace.RemoveIdempotent | store_remove.go:17-23 | Removing twice is removing once: the second Remove finds no record (so it answers false) and changes nothing. |
| Keyspace.RemoveLeavesOtherKinds | store_remove.go:18-22 | Remove under one colon-free kind leaves another kind's record (present iff it was, with the same value) and that kind's indexes unchanged, even for the same id. |
| Keyspace.AddIndexesFields | store_add.go:18-21 | After Add, the record key holds the new record, each indexed field's index holds the id with its score (replacing an old score), unindexed fields' indexes and keys outside the kind are unchanged, and the hashes are untouched. |
| Queries.Get | store_get.go:10-42 | An empty kind, then an empty id, is an error; a missing record is "not found" and no error; a present record is its decoding, and a record that does not decode is an error. |
| Queries.ListWindow | store_list.go:25-33 | The ids kept are the ordered members at ranks offset to offset+limit-1, clipped, so at most limit of them; has-more holds iff the index has more than offset+limit members. |
| Queries.FetchRecords | store_list.go:34-37 | One GET reply per id in order: the record under the kind's item prefix, or nil. |
| Queries.DecodeRecords | store_list.go:98-106 | The decode loop over the replies: a success has one item per reply, and a failure is a missing record or a decode error. |
| Queries.DecodeRecordsOk | store_list.go:98-106 | Decoding succeeds iff every reply is present and decodes, and then yields one item per reply, each the decoding of its reply. |
| Queries.DecodeRecordsFails | store_list.go:98-106 | When decoding fails, the error is that of the first reply that is missing or does not decode, where the loop stops. |
| Queries.DecodeRecordsPresent | store_list.go:98-106 | Replies that are all present never give the missing-record error. |
| Queries.DecodeRecordsAll | store_list.go:98-106 | When every reply decodes, the result is exactly the decoded items in reply order. |
| Queries.CheckListArgs | store_list.go:48-63 | The arguments pass iff the type name and sort field are non-empty and offset and limit are non-negative. Each error is reported exactly when its check is the first to fail, in the order type name, sort field, offset, limit. |
| Queries.List | store_list.go:41-108 | Bad arguments give their error; with good arguments, "sort by field must be indexed" is reported iff the field is not in the type hash; a page has at most limit items, and has-more holds iff the index has more than offset+limit members. |
| Queries.WindowHasRecords | store_list.go:34-37 | While every index member has a record, every GET of a window finds a record. |
| Queries.ListFindsRecords | store_list.go:96-106 | While every index member has a record and the kind is colon-free, List never meets a nil reply, the case in which the source's type assertion panics. |
| Queries.ListItems | store_list.go:26-37 | A page succeeds iff every kept id has a record that decodes; its items are those decodings, in rank order. |
| Queries.WindowsCoverIndex | store_test.go:297-320 | Listing from an offset and advancing by limit while has-more holds yields exactly the ordered index from that offset, with no id missing or repeated. |
| Queries.GetAfterAdd | store_test.go:37-51 | Get after Add returns the item that was added, fields and types included. |
| Queries.GetAfterRemove | store_test.go:53-65 | Get after Remove is "not found", and Get under another colon-free kind is unaffected. |
| Queries.ListAfterDefineType | store_define_type.go:17-23 | After DefineType, List by any declared field passes the declared-field check. |
| Queries.NonIndexedFieldNotListed | store_test.go:107-115 | Adding an item whose field is present but not indexed does not put the id into that field's index. |
| Stores.AddCallIndexes | store_add.go:19-21 | Running the script's ZADD loop over a well-formed key and argument list is adding the item's indexed scores to its kind's indexes. |
| Stores.BuildAddCall | store_add.go:41-67 | Fails iff some indexed field is not Int64 or Float64, and then names that field and its type. Otherwise: the record key first, ARGV holding the id and the record, and one index key per indexed field, none twice, each aligned with its field's score. |
| Stores.Store.constructor | store.go:20-30 | A new store has the given base prefix and works on the given keyspace. |
| Stores.Store.RunAddScript | store_add.go:17-22 | SET the record, then ZADD the id into each listed index with its score; the hashes are untouched. |
| Stores.Store.Add | store_add.go:24-80 | A nil item, an invalid item or an indexed non-numeric field gives its error and changes nothing. Success writes a record that reads back as the item, and the new keyspace is exactly the Add effect. |
| Stores.Store.RunRemoveScript | store_remove.go:17-23 | ZREM the id from every index key with the kind's prefix, DEL the record, and answer 1 iff the record existed. |
| Stores.Store.Remove | store_remove.go:25-56 | An empty kind, then an empty id, is an error and changes nothing. Otherwise the answer is whether the record existed, and the new keyspace is exactly the Remove effect. |
| Stores.Store.HSet | store_define_type.go:23 | Adds the named fields to the hash and changes no other key; with no field/value pair the command is rejected and nothing changes. |
| Stores.Store.DefineType | store_define_type.go:8-28 | An empty type name is an error and writes nothing. Otherwise every index name joins the type hash, earlier declarations remain and no other key changes. |
| Stores.Store.Get | store_get.go:10-42 | Computes Queries.Get on the current keyspace, which it only reads. |
| Stores.Store.RunListScript | store_list.go:21-39 | No reply when the field is not in the type hash; otherwise the lookahead flag and the GET replies for the window the index gives. |
| Stores.Store.DecodeReplies | store_list.go:96-106 | The decode loop computes the same result as DecodeRecords. |
| Stores.Store.List | store_list.go:41-108 | Computes Queries.List on the current keyspace, which it only reads. |
| Stores.ZAddEach | store_add.go:19-21 | The script's `for idx=2,#KEYS` loop is ZADD into each index key in turn with the matching score. |
| Stores.ZRemEach | store_remove.go:18-21 | ZREM from each key KEYS returned, in any order, is ZRemSet of that set of keys. |
| Stores.PairNames | store_define_type.go:23 | Every name at an even position of an HSET argument list becomes a field. |
| Stores.DefineTypeValues | store_define_type.go:18-22 | The HSET argument list has length 2*|indexes| and alternates each name with 1. |
| Stores.PairNamesOfValues | store_define_type.go:17-23 | The fields that list declares are exactly the index names, and the list is empty iff there are no names. |

## Left out

- Floating point: Float64 payloads and Redis scores are integers. Redis keeps scores as doubles, so an int64 above 2^53 loses precision there; the model does not.
- Serialization: gob is replaced by a concrete length-prefixed codec. Only the round trip, and the order kind, id, fields, carry over; gob's byte format and its error texts do not.
- The Redis client is not modelled: connection, transport errors, `context`, script loading (EVALSHA) and the `redis.Nil` plumbing. The server is the in-memory keyspace, and atomicity is one method call. There is no concurrency.
- A failure of the script call or of Serialize is not modelled, because the server and the codec are in memory. Error values are constructors, not message strings.
- Keyspace.KeysWithPrefix: KEYS is modelled as a plain prefix match over the sorted-set keys only. Glob metacharacters in kinds or in the prefix are not modelled. Redis KEYS returns keys of every type. The model assumes no string or hash key lies under an index prefix. That holds for the keys one store writes, by Keyspace.NamespacesDisjoint, but not for every keyspace the constructor accepts (another store with a different base can write one). On such a key the source's ZREM fails with WRONGTYPE, and the script stops: the ZREMs already made stay and the DEL does not run. The model's Remove never fails that way, and a script that fails part-way, keeping its earlier writes, is not modelled. More generally, the keyspace keeps three separate maps (strings, sorted sets, hashes), so one key can hold a value of each type at once. In Redis a key has one type: SET replaces a sorted set, and ZADD, ZRANGE, GET or HSET on a key of another type fails with WRONGTYPE. The model never gives WRONGTYPE for any command: not for Add's SET and ZADD, Remove's ZREM, List's ZRANGE and GET, or DefineType's HSET.
- Keyspace.NamespacesDisjoint relies on the concrete segments `item:`, `index:` and `type:`, of which none is a prefix of another. Two distinct segments with one a prefix of the other can make a record key equal an index key. Other segment strings are not modelled.
- Clustered deployments, which the source itself warns about (store_list.go:10-11, store_remove.go:10-11), are not modelled.
- store.go's `getType`, `encodeType`, `decodeType` and `encodeItem` are not modelled. Nothing in the modelled operations calls them, and `itemType` is not part of this model.
- Keyspace.IndexesHaveRecords covers only colon-free kinds. Keyspace.ItemKeyInjective, Keyspace.IndexPrefixOwnKind, Keyspace.RemoveLeavesOtherKinds, Queries.GetAfterRemove, Queries.WindowHasRecords, Queries.ListFindsRecords and the two invariant-preservation lemmas assume kinds contain no ':'. With a colon, `kind:id` keys of different kinds can collide.
- Queries.Get, Stores.Store.Get, Queries.List and Stores.Store.List return item values, not `*Item` pointers. Item identity and aliasing between results are not modelled.
- Stores.Store.List: offset and limit are int64, but the model computes offset+limit, and ZRANGE's bounds, without the Lua number conversion and without overflow. The ZRANGE negative-index case cannot arise, because both bounds are non-negative after the argument checks.
- Store's struct has no `scriptRemove` field (store.go:13-18), although Remove runs one (store_remove.go:45). The model runs the Remove script as the other scripts are run.
- List decodes each record with `Store.decodeItem` (store.go:61-69), which returns `nil` for a struct-typed `Item` and would decode the whole struct rather than the three values Serialize writes. The model decodes list records with DeserializeItem, as Get does.
- Queries.List and Stores.Store.List: the source's List has named results. On a decode error (store_list.go:101-103) it returns the items decoded so far and the has-more flag set at line 97, beside the error. The model's error result carries neither.
- List with an index member whose record is missing: the script's nil reply makes the source's `entry.(string)` panic (store_list.go:100). The model returns the error RecordMissing instead.
- DefineType with an empty index list: the source sends HSET with no field/value pair, which Redis rejects. The model returns the error HSetWithoutFields.
- The tests never call DefineType. So every List call in them (store_test.go:118-154, 189-192 and 300-307) lists by an undeclared field, which the declared-field check (store_list.go:22-24) rejects. store_test.go:188-192 even expects an empty page for that case. The model follows store_list.go, and applies the tests' listing properties only to declared fields.
- Any payloads are strings, because LookupAny and GetAny assert a string payload (item.go:210, 221). Other payload types in an Any field are not modelled.
- ItemField's declaration is not part of this model. Its three members (value, type tag, indexed flag) are taken from how item.go builds it. The fields map holds values, not `*ItemField` pointers.
- Queries.WindowsFrom requires a positive limit. With limit 0 on a non-empty index, has-more stays true and the offset never advances, so the tests' pagination loop (store_test.go:298-314) would not end. Pagination with limit 0 is not modelled.
- Pagination is stated on ids (Queries.WindowsCoverIndex) together with Queries.ListItems, which says the page items are the decoded records of those ids. A single item-level statement over a whole pagination run is not stated.
- The float-valued test cases (store_test.go:237-245) are not modelled, because scores are integers.
- StringOrder.Less compares ids as sequences of Unicode scalar values, in code-point order, which is byte order on their UTF-8 encodings. Go strings and Redis members are arbitrary bytes compared with memcmp. Ids that are not valid UTF-8 are not modelled.
