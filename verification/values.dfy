/** The loosely typed `interface{}` values that requests and rule settings
    carry, as a tagged sum, and the numeric coercion the rule checks use. */
module Values {
  import opened Base
  import opened Text

  /** The Go integer types a value may arrive as. */
  datatype IntKind = GoInt | GoInt8 | GoInt16 | GoInt32 | GoInt64
                   | GoUint | GoUint8 | GoUint16 | GoUint32 | GoUint64

  datatype FloatKind = GoFloat32 | GoFloat64

  /** `nil`, a bool, a Go integer or float (its number kept exactly),
      a string, or a list of values. */
  datatype Value =
    | Null
    | Bool(b: bool)
    | Integer(ikind: IntKind, i: int)
    | Float(fkind: FloatKind, x: real)
    | Str(s: string)
    | List(items: seq<Value>)

  /** rule_validator.go's toFloat64: float64, float32, int, int64 and int32
      are numeric; every other type (the small and unsigned integers among
      them) is not. */
  function ToFloat64(v: Value): (r: Option<real>)
    ensures v.Float? ==> r == Some(v.x)
    ensures v.Integer? && v.ikind in {GoInt, GoInt32, GoInt64} ==> r == Some(v.i as real)
    ensures r.Some? ==> v.Float? || (v.Integer? && v.ikind in {GoInt, GoInt32, GoInt64})
  {
    match v
    case Float(_, x) => Some(x)
    case Integer(k, i) =>
      if k == GoInt || k == GoInt32 || k == GoInt64 then Some(i as real) else None
    case _ => None
  }

  /** Go's float-to-int conversion `int(x)`: truncation toward zero. */
  function Truncate(x: real): (r: int)
    ensures x >= 0.0 ==> r as real <= x < r as real + 1.0
    ensures x < 0.0 ==> r as real - 1.0 < x <= r as real
  {
    if x >= 0.0 then x.Floor else -((-x).Floor)
  }

  /** The `%v` rendering of a value, as the default rule messages use it.
      A float is rendered as digits only when it is integral and its
      magnitude is below 1e6: `%v` of a float is the shortest `%g` form,
      which switches to exponent form (`1e+06`) from there on. Neither that
      form nor fractional digits are modelled. */
  function Show(v: Value): string
  {
    match v
    case Null => "<nil>"
    case Bool(b) => if b then "true" else "false"
    case Integer(_, i) => IntToString(i)
    case Float(_, x) =>
      if x == x.Floor as real && -1000000.0 < x < 1000000.0 then IntToString(x.Floor) else "<float>"
    case Str(s) => s
    case List(items) => "[" + ShowAll(items) + "]"
  }

  function ShowAll(vs: seq<Value>): string
  {
    if |vs| == 0 then ""
    else if |vs| == 1 then Show(vs[0])
    else Show(vs[0]) + " " + ShowAll(vs[1..])
  }
}
