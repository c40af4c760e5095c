/**
 * The byte representation of an item stored as its primary record. Item.Serialize
 * writes kind, id and the field map in that order and DeserializeItem reads them
 * back in the same order. Each string is written with a unary length prefix and
 * each integer as a sign and a unary magnitude; a field is its name, a type tag,
 * its payload and its indexed flag.
 */
module Codec {
  import opened Wrappers
  import opened Fields

  function Unary(n: nat): string {
    if n == 0 then "." else "#" + Unary(n - 1)
  }

  function ParseUnary(s: string): (r: Option<(nat, string)>)
    ensures r.Some? ==> |r.value.1| < |s|
    decreases |s|
  {
    if s == [] then None
    else if s[0] == '.' then Some((0, s[1..]))
    else if s[0] == '#' then
      match ParseUnary(s[1..])
      case None => None
      case Some((n, rest)) => Some((n + 1, rest))
    else None
  }

  lemma {:induction false} ParseUnaryInverse(n: nat, rest: string)
    ensures ParseUnary(Unary(n) + rest) == Some((n, rest))
  {
    if n > 0 {
      ParseUnaryInverse(n - 1, rest);
      assert Unary(n) + rest == "#" + (Unary(n - 1) + rest);
    }
  }

  /** What ParseUnary reads is a unary numeral. */
  lemma {:induction false} ParseUnarySound(s: string)
    requires ParseUnary(s).Some?
    ensures s == Unary(ParseUnary(s).value.0) + ParseUnary(s).value.1
    decreases |s|
  {
    if s[0] == '#' {
      ParseUnarySound(s[1..]);
      var (n, rest) := ParseUnary(s[1..]).value;
      assert s == "#" + s[1..];
      AppendAssoc("#", Unary(n), rest);
    }
  }

  function EncodeString(x: string): string {
    Unary(|x|) + x
  }

  function ParseString(s: string): (r: Option<(string, string)>)
    ensures r.Some? ==> |r.value.1| < |s|
  {
    match ParseUnary(s)
    case None => None
    case Some((n, rest)) => if n <= |rest| then Some((rest[..n], rest[n..])) else None
  }

  /** What ParseString reads is an encoded string. */
  lemma ParseStringSound(s: string)
    requires ParseString(s).Some?
    ensures s == EncodeString(ParseString(s).value.0) + ParseString(s).value.1
  {
    ParseUnarySound(s);
    var (n, rest) := ParseUnary(s).value;
    assert rest == rest[..n] + rest[n..];
    AppendAssoc(Unary(n), rest[..n], rest[n..]);
  }

  lemma ParseStringInverse(x: string, rest: string)
    ensures ParseString(EncodeString(x) + rest) == Some((x, rest))
  {
    ParseUnaryInverse(|x|, x + rest);
    assert EncodeString(x) + rest == Unary(|x|) + (x + rest);
    assert (x + rest)[..|x|] == x && (x + rest)[|x|..] == rest;
  }

  function EncodeInt(i: int): string {
    if i < 0 then "-" + Unary(-i) else "+" + Unary(i)
  }

  function ParseInt(s: string): (r: Option<(int, string)>)
    ensures r.Some? ==> |r.value.1| < |s|
  {
    if s == [] || (s[0] != '-' && s[0] != '+') then None
    else
      match ParseUnary(s[1..])
      case None => None
      case Some((n, rest)) =>
        var i: int := if s[0] == '-' then 0 - (n as int) else n as int;
        Some((i, rest))
  }

  lemma ParseIntInverse(i: int, rest: string)
    ensures ParseInt(EncodeInt(i) + rest) == Some((i, rest))
  {
    var n: nat := if i < 0 then -i else i;
    ParseUnaryInverse(n, rest);
    var s := EncodeInt(i) + rest;
    assert s[1..] == Unary(n) + rest;
  }

  function EncodeValue(v: Value): string {
    match v
    case AnyValue(a) => "A" + EncodeString(a)
    case Int64Value(i) => "I" + EncodeInt(i as int)
    case Float64Value(f) => "F" + EncodeInt(f)
    case StringValue(x) => "S" + EncodeString(x)
  }

  /** Fails on an unknown tag and on an Int64 payload outside the 64-bit range. */
  function ParseValue(s: string): (r: Option<(Value, string)>)
    ensures r.Some? ==> |r.value.1| < |s|
  {
    if s == [] then None
    else if s[0] == 'A' || s[0] == 'S' then
      match ParseString(s[1..])
      case None => None
      case Some((x, rest)) => Some((if s[0] == 'A' then AnyValue(x) else StringValue(x), rest))
    else if s[0] == 'I' || s[0] == 'F' then
      match ParseInt(s[1..])
      case None => None
      case Some((i, rest)) =>
        if s[0] == 'F' then Some((Float64Value(i), rest))
        else if -0x8000_0000_0000_0000 <= i < 0x8000_0000_0000_0000 then Some((Int64Value(i as int64), rest))
        else None
    else None
  }

  lemma ParseValueInverse(v: Value, rest: string)
    ensures ParseValue(EncodeValue(v) + rest) == Some((v, rest))
  {
    var s := EncodeValue(v) + rest;
    match v
    case AnyValue(a) => ParseTaggedString('A', a, rest);
    case StringValue(x) => ParseTaggedString('S', x, rest);
    case Int64Value(i) => ParseTaggedInt('I', i as int, rest);
    case Float64Value(f) => ParseTaggedInt('F', f, rest);
  }

  lemma ParseTaggedString(tag: char, x: string, rest: string)
    requires tag == 'A' || tag == 'S'
    ensures ParseValue([tag] + EncodeString(x) + rest)
         == Some((if tag == 'A' then AnyValue(x) else StringValue(x), rest))
  {
    var s := [tag] + EncodeString(x) + rest;
    assert s[0] == tag && s[1..] == EncodeString(x) + rest;
    ParseStringInverse(x, rest);
  }

  lemma ParseTaggedInt(tag: char, i: int, rest: string)
    requires tag == 'I' || tag == 'F'
    requires tag == 'I' ==> -0x8000_0000_0000_0000 <= i < 0x8000_0000_0000_0000
    ensures ParseValue([tag] + EncodeInt(i) + rest)
         == Some((if tag == 'I' then Int64Value(i as int64) else Float64Value(i), rest))
  {
    var s := [tag] + EncodeInt(i) + rest;
    assert s[0] == tag && s[1..] == EncodeInt(i) + rest;
    ParseIntInverse(i, rest);
  }

  function EncodeField(f: ItemField): string {
    EncodeValue(f.value) + (if f.indexed then "1" else "0")
  }

  function ParseField(s: string): (r: Option<(ItemField, string)>)
    ensures r.Some? ==> |r.value.1| < |s|
  {
    match ParseValue(s)
    case None => None
    case Some((v, rest)) =>
      if rest == [] || (rest[0] != '0' && rest[0] != '1') then None
      else Some((ItemField(v, rest[0] == '1'), rest[1..]))
  }

  lemma ParseFieldInverse(f: ItemField, rest: string)
    ensures ParseField(EncodeField(f) + rest) == Some((f, rest))
  {
    var flag := if f.indexed then "1" else "0";
    ParseValueInverse(f.value, flag + rest);
    assert EncodeField(f) + rest == EncodeValue(f.value) + (flag + rest);
    assert (flag + rest)[1..] == rest;
  }

  /** One entry of the field map: its name, then its field. */
  function EncodeEntry(name: string, f: ItemField): string {
    EncodeString(name) + EncodeField(f)
  }

  /** Reads entries up to the end of the input; a later entry of a name overrides an earlier one. */
  function ParseFields(s: string): Option<FieldMap>
    decreases |s|
  {
    if s == [] then Some(map[])
    else
      match ParseString(s)
      case None => None
      case Some((name, rest)) =>
        match ParseField(rest)
        case None => None
        case Some((f, rest')) =>
          match ParseFields(rest')
          case None => None
          case Some(m) => Some(m[name := f])
  }

  lemma AppendAssoc<T>(a: seq<T>, b: seq<T>, c: seq<T>)
    ensures (a + b) + c == a + (b + c)
  {
  }

  /** One step of ParseFields: a name, then a field, then entries that parse. */
  lemma ParseFieldsStep(s: string, name: string, tail: string, f: ItemField, body: string)
    requires ParseString(s) == Some((name, tail))
    requires ParseField(tail) == Some((f, body))
    requires ParseFields(body).Some?
    ensures ParseFields(s) == Some(ParseFields(body).value[name := f])
  {
  }

  /** Writing one more entry in front adds that entry to what is read back. */
  lemma ParseFieldsCons(name: string, f: ItemField, body: string)
    requires ParseFields(body).Some?
    ensures ParseFields(EncodeEntry(name, f) + body) == Some(ParseFields(body).value[name := f])
  {
    var tail := EncodeField(f) + body;
    AppendAssoc(EncodeString(name), EncodeField(f), body);
    ParseStringInverse(name, tail);
    ParseFieldInverse(f, body);
    ParseFieldsStep(EncodeEntry(name, f) + body, name, tail, f, body);
  }

  datatype CodecError = BadKind | BadId | BadFields

  /** `DeserializeItem`: kind, then id, then the field map; each failure names the component that did not parse. */
  function DeserializeItem(s: string): (r: Result<ItemData, CodecError>)
    ensures r == Err(BadKind) <==> ParseString(s).None?
    ensures r == Err(BadId) <==> ParseString(s).Some? && ParseString(ParseString(s).value.1).None?
  {
    match ParseString(s)
    case None => Err(BadKind)
    case Some((kind, rest)) =>
      match ParseString(rest)
      case None => Err(BadId)
      case Some((id, rest')) =>
        match ParseFields(rest')
        case None => Err(BadFields)
        case Some(fields) => Ok(ItemData(kind, id, fields))
  }

  /** Whatever DeserializeItem accepts is a kind, an id and a field map framed as Serialize writes them. */
  lemma DeserializeSound(s: string)
    requires DeserializeItem(s).Ok?
    ensures exists body ::
      ParseFields(body) == Some(DeserializeItem(s).value.fields) && s == EncodeString(DeserializeItem(s).value.kind) + EncodeString(DeserializeItem(s).value.id) + body
  {
    var (kind, rest) := ParseString(s).value;
    var (id, body) := ParseString(rest).value;
    ParseStringSound(s);
    ParseStringSound(rest);
    AppendAssoc(EncodeString(kind), EncodeString(id), body);
  }

  /** Kind and id written in front of an encoded field map read back as the item. */
  lemma DeserializeFramed(kind: string, id: string, body: string)
    requires ParseFields(body).Some?
    ensures DeserializeItem(EncodeString(kind) + EncodeString(id) + body)
         == Ok(ItemData(kind, id, ParseFields(body).value))
  {
    var tail := EncodeString(id) + body;
    assert EncodeString(kind) + EncodeString(id) + body == EncodeString(kind) + tail;
    ParseStringInverse(kind, tail);
    ParseStringInverse(id, body);
  }
}
