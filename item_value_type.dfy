/** The runtime type tags of item fields (item_value_type.go). */
module ItemValueTypes {

  /** Go declares `type ItemValueType int`, so any integer is a value of the type. */
  type ItemValueType = int

  const AnyType: ItemValueType := 1
  const Int64Type: ItemValueType := 2
  const Float64Type: ItemValueType := 3
  const StringType: ItemValueType := 4

  /** The four tags the package declares. */
  predicate IsDeclared(t: ItemValueType) {
    t == AnyType || t == Int64Type || t == Float64Type || t == StringType
  }

  /** `ItemValueType.String`: the tag's name, "" for an undeclared value. */
  function Name(t: ItemValueType): (r: string)
    ensures r != "" <==> IsDeclared(t)
    ensures t == AnyType ==> r == "any"
    ensures t == Int64Type ==> r == "int64"
    ensures t == Float64Type ==> r == "float64"
    ensures t == StringType ==> r == "string"
  {
    if t == AnyType then "any"
    else if t == Int64Type then "int64"
    else if t == Float64Type then "float64"
    else if t == StringType then "string"
    else ""
  }

  lemma ConstantsDistinct()
    ensures AnyType != Int64Type && AnyType != Float64Type && AnyType != StringType
    ensures Int64Type != Float64Type && Int64Type != StringType && Float64Type != StringType
    ensures forall t :: IsDeclared(t) <==> 1 <= t <= 4
  {
  }

  /** Distinct declared tags have distinct names. */
  lemma NameInjective(a: ItemValueType, b: ItemValueType)
    requires IsDeclared(a) && IsDeclared(b)
    ensures Name(a) == Name(b) ==> a == b
  {
  }
}
