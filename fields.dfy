/**
 * Item field values (item.go): a value tagged with its runtime type and an
 * `Indexed` flag, and the value of an item (kind, id, fields) with its
 * type-checked accessors.
 */
module Fields {
  import opened Wrappers
  import opened ItemValueTypes
  import SortedSets

  newtype int64 = x: int | -0x8000_0000_0000_0000 <= x < 0x8000_0000_0000_0000

  /**
   * A field payload, tagged by its type. Float64 payloads are modelled by
   * the score they are indexed under; Any payloads are strings, the only
   * type `LookupAny` accepts.
   */
  datatype Value =
    | AnyValue(a: string)
    | Int64Value(i: int64)
    | Float64Value(f: SortedSets.Score)
    | StringValue(s: string)
  {
    /** The `ValueType` tag stored beside the payload. */
    function Type(): (t: ItemValueType)
      ensures IsDeclared(t)
      ensures t == Int64Type <==> Int64Value?
      ensures t == Float64Type <==> Float64Value?
      ensures t == StringType <==> StringValue?
      ensures t == AnyType <==> AnyValue?
    {
      match this
      case AnyValue(_) => AnyType
      case Int64Value(_) => Int64Type
      case Float64Value(_) => Float64Type
      case StringValue(_) => StringType
    }

    /** Only Int64 and Float64 values can be scores of a sorted set. */
    predicate IsIndexable() {
      Type() == Int64Type || Type() == Float64Type
    }

    /** The score ZADD receives for an indexable value. */
    function Score(): SortedSets.Score
      requires IsIndexable()
    {
      if Int64Value? then i as int else f
    }
  }

  /** `ItemField`: the payload and whether the field is indexed. */
  datatype ItemField = ItemField(value: Value, indexed: bool)

  type FieldMap = map<string, ItemField>

  datatype ValidationError = EmptyKind | EmptyId

  /** The value of an `Item`: its kind, its id and its fields. */
  datatype ItemData = ItemData(kind: string, id: string, fields: FieldMap)
  {
    /** `Validate`: kind first, then id, must be non-empty. */
    function Validate(): (r: Option<ValidationError>)
      ensures r.None? <==> kind != "" && id != ""
      ensures r == Some(EmptyKind) <==> kind == ""
      ensures r == Some(EmptyId) <==> kind != "" && id == ""
    {
      if kind == "" then Some(EmptyKind)
      else if id == "" then Some(EmptyId)
      else None
    }

    /** `GetField`: the field, or nil when there is none. */
    function GetField(name: string): (r: Option<ItemField>)
      ensures r.Some? <==> name in fields
      ensures r.Some? ==> r.value == fields[name]
    {
      if name in fields then Some(fields[name]) else None
    }

    /** The field `name` exists and is tagged with type `t`. */
    predicate HasType(name: string, t: ItemValueType) {
      name in fields && fields[name].value.Type() == t
    }

    function LookupInt64(name: string): (r: (int64, bool))
      ensures r.1 <==> HasType(name, Int64Type)
      ensures r.1 ==> fields[name].value == Int64Value(r.0)
      ensures !r.1 ==> r.0 == 0
    {
      var f := GetField(name);
      if f.Some? && f.value.value.Type() == Int64Type then (f.value.value.i, true) else (0, false)
    }

    function GetInt64(name: string): (r: int64)
      ensures r == LookupInt64(name).0
    {
      if name in fields && fields[name].value.Int64Value? then fields[name].value.i else 0
    }

    function LookupFloat64(name: string): (r: (SortedSets.Score, bool))
      ensures r.1 <==> HasType(name, Float64Type)
      ensures r.1 ==> fields[name].value == Float64Value(r.0)
      ensures !r.1 ==> r.0 == 0
    {
      var f := GetField(name);
      if f.Some? && f.value.value.Type() == Float64Type then (f.value.value.f, true) else (0, false)
    }

    function GetFloat64(name: string): (r: SortedSets.Score)
      ensures r == LookupFloat64(name).0
    {
      if name in fields && fields[name].value.Float64Value? then fields[name].value.f else 0
    }

    function LookupString(name: string): (r: (string, bool))
      ensures r.1 <==> HasType(name, StringType)
      ensures r.1 ==> fields[name].value == StringValue(r.0)
      ensures !r.1 ==> r.0 == ""
    {
      var f := GetField(name);
      if f.Some? && f.value.value.Type() == StringType then (f.value.value.s, true) else ("", false)
    }

    function GetString(name: string): (r: string)
      ensures r == LookupString(name).0
    {
      if name in fields && fields[name].value.StringValue? then fields[name].value.s else ""
    }

    /** `LookupAny`: the value component is nil (`None`) when absent. */
    function LookupAny(name: string): (r: (Option<string>, bool))
      ensures r.1 <==> HasType(name, AnyType)
      ensures r.1 ==> r.0.Some? && fields[name].value == AnyValue(r.0.value)
      ensures !r.1 ==> r.0 == None
    {
      var f := GetField(name);
      if f.Some? && f.value.value.Type() == AnyType then (Some(f.value.value.a), true) else (None, false)
    }

    function GetAny(name: string): (r: Option<string>)
      ensures r == LookupAny(name).0
    {
      if name in fields && fields[name].value.AnyValue? then Some(fields[name].value.a) else None
    }

    /** Every indexed field holds an Int64 or a Float64. */
    predicate IndexedAreIndexable() {
      forall n :: n in fields && fields[n].indexed ==> fields[n].value.IsIndexable()
    }

    /** The scores Add puts into the indexes: one per indexed, indexable field. */
    function IndexedScores(): (m: map<string, SortedSets.Score>)
      ensures forall n :: n in m <==> n in fields && fields[n].indexed && fields[n].value.IsIndexable()
      ensures forall n :: n in m ==> m[n] == fields[n].value.Score()
    {
      map n | n in fields && fields[n].indexed && fields[n].value.IsIndexable() :: fields[n].value.Score()
    }
  }

  /** A lookup of one type reports absent for a field of any other type. */
  lemma {:induction false} LookupsAreExclusive(d: ItemData, name: string)
    ensures !(d.LookupInt64(name).1 && d.LookupFloat64(name).1)
    ensures !(d.LookupInt64(name).1 && d.LookupString(name).1)
    ensures !(d.LookupInt64(name).1 && d.LookupAny(name).1)
    ensures !(d.LookupFloat64(name).1 && d.LookupString(name).1)
    ensures !(d.LookupFloat64(name).1 && d.LookupAny(name).1)
    ensures !(d.LookupString(name).1 && d.LookupAny(name).1)
    ensures name in d.fields ==>
      d.LookupInt64(name).1 || d.LookupFloat64(name).1 || d.LookupString(name).1 || d.LookupAny(name).1
  {
  }
}
