/**
 * The JSON value tree of the nlohmann library, reduced to the kinds the
 * runtime distinguishes. Text parsing and printing stay outside the model:
 * a parsed line is given as an optional tree.
 */
module Json {
  import opened Wrappers

  /**
   * Integers keep the library's two kinds apart: `Int` is number_integer
   * (a signed 64-bit value) and `UInt` is number_unsigned (an unsigned 64-bit
   * value). A string is one character per byte of the C++ std::string.
   */
  datatype Value =
    | Null
    | Bool(b: bool)
    | Int(i: int)
    | UInt(u: nat)
    | Float(f: real)
    | Str(s: string)
    | Arr(items: seq<Value>)
    | Obj(fields: map<string, Value>)

  /** is_number(): any of the three number kinds. */
  predicate IsNumber(v: Value) {
    v.Int? || v.UInt? || v.Float?
  }

  /** contains(key) followed by at(key): the member, if `v` is an object holding it. */
  function Get(v: Value, key: string): (r: Option<Value>)
    ensures r.Some? <==> v.Obj? && key in v.fields
    ensures r.Some? ==> r.value == v.fields[key]
  {
    if v.Obj? && key in v.fields then Some(v.fields[key]) else None
  }

  /** contains(key) && [key].is_string() */
  predicate HasString(v: Value, key: string) {
    Get(v, key).Some? && Get(v, key).value.Str?
  }

  /** contains(key) && [key].is_object() */
  predicate HasObject(v: Value, key: string) {
    Get(v, key).Some? && Get(v, key).value.Obj?
  }

  /**
   * Reading obj[key] through the non-const operator[] of an object: the member,
   * or null when the key is missing (the library inserts a null member).
   */
  function Index(v: Value, key: string): (r: Value)
    ensures key !in v.fields ==> r == Null
    ensures key in v.fields ==> r == v.fields[key]
    requires v.Obj?
  {
    if key in v.fields then v.fields[key] else Null
  }

  /** obj[key] = x: a null value first becomes an empty object. */
  function Set(v: Value, key: string, x: Value): (r: Value)
    requires v.Null? || v.Obj?
    ensures r.Obj? && key in r.fields && r.fields[key] == x
    ensures v.Obj? ==> r.fields.Keys == v.fields.Keys + {key}
    ensures v.Null? ==> r.fields.Keys == {key}
    ensures v.Obj? ==> forall k :: k in v.fields && k != key ==> r.fields[k] == v.fields[k]
  {
    match v
    case Null => Obj(map[key := x])
    case Obj(m) => Obj(m[key := x])
  }
}
