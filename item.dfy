/**
 * `Item` (item.go): an object whose builder methods update its field map in
 * place and return the same object, plus the two map iterations of the
 * source, `FieldNames` and `Serialize`.
 */
module Items {
  import opened Wrappers
  import opened Fields
  import Codec

  class Item {
    var kind: string
    var id: string
    var fields: FieldMap

    /** The item's current value. */
    function Data(): ItemData
      reads this
    {
      ItemData(kind, id, fields)
    }

    /** `NewItem(kind, id)`: no fields yet. */
    constructor (kind: string, id: string)
      ensures Data() == ItemData(kind, id, map[])
    {
      this.kind := kind;
      this.id := id;
      this.fields := map[];
    }

    /** The shared step of every builder: (re)place field `name`, return the receiver. */
    method Put(name: string, f: ItemField) returns (r: Item)
      modifies this
      ensures r == this
      ensures Data() == old(Data()).(fields := old(fields)[name := f])
      ensures f.indexed ==> f.value.IsIndexable() ==>
        old(Data().IndexedAreIndexable()) ==> Data().IndexedAreIndexable()
    {
      fields := fields[name := f];
      r := this;
    }

    method AddInt64(name: string, value: int64) returns (r: Item)
      modifies this
      ensures r == this
      ensures Data() == old(Data()).(fields := old(fields)[name := ItemField(Int64Value(value), false)])
      ensures old(Data().IndexedAreIndexable()) ==> Data().IndexedAreIndexable()
    {
      r := Put(name, ItemField(Int64Value(value), false));
    }

    method AddFloat64(name: string, value: SortedSets.Score) returns (r: Item)
      modifies this
      ensures r == this
      ensures Data() == old(Data()).(fields := old(fields)[name := ItemField(Float64Value(value), false)])
      ensures old(Data().IndexedAreIndexable()) ==> Data().IndexedAreIndexable()
    {
      r := Put(name, ItemField(Float64Value(value), false));
    }

    method AddString(name: string, value: string) returns (r: Item)
      modifies this
      ensures r == this
      ensures Data() == old(Data()).(fields := old(fields)[name := ItemField(StringValue(value), false)])
      ensures old(Data().IndexedAreIndexable()) ==> Data().IndexedAreIndexable()
    {
      r := Put(name, ItemField(StringValue(value), false));
    }

    method AddAny(name: string, value: string) returns (r: Item)
      modifies this
      ensures r == this
      ensures Data() == old(Data()).(fields := old(fields)[name := ItemField(AnyValue(value), false)])
      ensures old(Data().IndexedAreIndexable()) ==> Data().IndexedAreIndexable()
    {
      r := Put(name, ItemField(AnyValue(value), false));
    }

    method AddInt64Indexed(name: string, value: int64) returns (r: Item)
      modifies this
      ensures r == this
      ensures Data() == old(Data()).(fields := old(fields)[name := ItemField(Int64Value(value), true)])
      ensures old(Data().IndexedAreIndexable()) ==> Data().IndexedAreIndexable()
    {
      r := Put(name, ItemField(Int64Value(value), true));
    }

    method AddFloat64Indexed(name: string, value: SortedSets.Score) returns (r: Item)
      modifies this
      ensures r == this
      ensures Data() == old(Data()).(fields := old(fields)[name := ItemField(Float64Value(value), true)])
      ensures old(Data().IndexedAreIndexable()) ==> Data().IndexedAreIndexable()
    {
      r := Put(name, ItemField(Float64Value(value), true));
    }

    /** `FieldNames`: every field name exactly once, in no promised order. */
    method FieldNames() returns (names: seq<string>)
      ensures |names| == |fields|
      ensures forall n :: n in names <==> n in fields
      ensures forall i, j :: 0 <= i < j < |names| ==> names[i] != names[j]
    {
      names := [];
      var rest := fields.Keys;
      while rest != {}
        invariant rest <= fields.Keys
        invariant forall n :: n in fields ==> (n in names <==> n !in rest)
        invariant forall n :: n in names ==> n in fields
        invariant forall i, j :: 0 <= i < j < |names| ==> names[i] != names[j]
        invariant |names| + |rest| == |fields.Keys|
        decreases |rest|
      {
        var n :| n in rest;
        names := names + [n];
        rest := rest - {n};
      }
    }

    /**
     * `Serialize`: kind, id, then the field map in the map's iteration
     * order, which is not fixed; whatever the order, `DeserializeItem`
     * reads back this item.
     */
    method Serialize() returns (s: string)
      ensures Codec.DeserializeItem(s) == Ok(Data())
    {
      var body := "";
      var rest := fields.Keys;
      ghost var done: FieldMap := map[];
      while rest != {}
        invariant rest <= fields.Keys
        invariant done.Keys == fields.Keys - rest
        invariant forall n :: n in done ==> done[n] == fields[n]
        invariant Codec.ParseFields(body) == Some(done)
        decreases |rest|
      {
        var n :| n in rest;
        Codec.ParseFieldsCons(n, fields[n], body);
        body := Codec.EncodeEntry(n, fields[n]) + body;
        done := done[n := fields[n]];
        rest := rest - {n};
      }
      assert done == fields;
      Codec.DeserializeFramed(kind, id, body);
      s := Codec.EncodeString(kind) + Codec.EncodeString(id) + body;
    }
  }

  /** No builder makes an indexed String or Any field. */
  lemma {:induction false} BuildersIndexOnlyNumbers(d: ItemData, name: string, value: Value, indexed: bool)
    requires d.IndexedAreIndexable()
    requires indexed ==> value.Int64Value? || value.Float64Value?
    ensures d.(fields := d.fields[name := ItemField(value, indexed)]).IndexedAreIndexable()
  {
  }
}
