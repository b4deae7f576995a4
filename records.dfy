/**
 * A JavaScript object of the share format, as a map from property names to
 * values. A property that is absent is `undefined`. Object spread
 * `{...a, ...b}` is the map union `a + b` (the right-hand side wins) and
 * `delete o.k` is `o - {k}`.
 */
module Records {
  import opened Text

  /** The values the share format stores. An ISO date string is kept as the
      millisecond timestamp it denotes; objects and arrays are opaque. */
  datatype Value =
    | Null
    | Bool(b: bool)
    | Num(n: int)
    | Str(s: string)
    | Date(ms: int)
    | Compound

  type Record = map<string, Value>

  /** JavaScript truthiness (`undefined` is handled by Field). */
  predicate Truthy(v: Value) {
    match v
    case Null => false
    case Bool(b) => b
    case Num(n) => n != 0
    case Str(s) => s != []
    case Date(_) => true
    case Compound => true
  }

  /** `o.k`, with None for `undefined`. */
  function Field(o: Record, k: string): (r: Option<Value>)
    ensures r.Some? <==> k in o
    ensures r.Some? ==> r.value == o[k]
  {
    if k in o then Some(o[k]) else None
  }

  /** `!!o.k` */
  predicate HasTruthy(o: Record, k: string) {
    k in o && Truthy(o[k])
  }

  /** `a || b` for two property reads. */
  function OrElse(a: Option<Value>, b: Option<Value>): (r: Option<Value>)
    ensures a.Some? && Truthy(a.value) ==> r == a
    ensures !(a.Some? && Truthy(a.value)) ==> r == b
  {
    if a.Some? && Truthy(a.value) then a else b
  }

  /** String(v) for a value handed to a function expecting a string, with None
      where the text is not modelled (a date string, an object). */
  function ToJsString(v: Option<Value>): Option<string> {
    match v
    case None => Some("undefined")
    case Some(Null) => Some("null")
    case Some(Bool(b)) => Some(if b then "true" else "false")
    case Some(Num(n)) => Some(if n < 0 then "-" + DecimalString(-n) else DecimalString(n))
    case Some(Str(s)) => Some(s)
    case Some(Date(_)) => None
    case Some(Compound) => None
  }
}
