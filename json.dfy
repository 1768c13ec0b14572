/**
 * The Python value a JSON document decodes to (`json.loads`), and the two
 * things the tools ask of such a value: its truthiness and `dict.get`.
 * Decoding itself is not modelled; it is a parameter of the log parser.
 */
module Json {

  datatype Value =
    | Null                               // None
    | Bool(b: bool)
    | Int(i: int)
    | Float(f: real)
    | Str(s: string)
    | Array(items: seq<Value>)           // list
    | Object(fields: map<string, Value>) // dict

  /** Python's `bool(v)`: None, False, zero, and empty strings, lists and dicts are falsy. */
  predicate Truthy(v: Value) {
    match v
    case Null => false
    case Bool(b) => b
    case Int(i) => i != 0
    case Float(f) => f != 0.0
    case Str(s) => s != []
    case Array(items) => items != []
    case Object(fields) => fields != map[]
  }

  /**
   * The smallest magnitude that no longer rounds to a finite IEEE 754 double:
   * 2^1024 - 2^970, halfway between the largest double and 2^1024. Rounding
   * half to even takes it, and everything beyond, to infinity; CPython then
   * raises `OverflowError` (`float(i)`, `f"{i:.4f}"` and `a / b` on integers).
   */
  const FloatOverflow: int :=
    179769313486231580793728971405303415079934132710037826936173778980444968292764750946649017977587207096330286416692887910946555547851940402630657488671505820681908902000708383676273854845817711531764475730270069855571366959622842914819860834936475292719074168444365510704342711559699508093042880177904174497792

  /** The exact value `x` rounds to a finite double, so converting it to a float does not raise. */
  predicate FitsDouble(x: real) {
    -(FloatOverflow as real) < x < FloatOverflow as real
  }

  /** `d.get(key, default)`: a stored JSON null is returned as it is (None). */
  function GetOr(fields: map<string, Value>, key: string, default: Value): (v: Value)
    ensures key in fields ==> v == fields[key]
    ensures key !in fields ==> v == default
  {
    if key in fields then fields[key] else default
  }

  /** `d.get(key)`: None when the key is absent. */
  function Get(fields: map<string, Value>, key: string): Value {
    GetOr(fields, key, Null)
  }
}
