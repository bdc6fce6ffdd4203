/** The Python values that travel through the core: metadata maps and their
    scalar values, and an Option for "key present or not". */
module Values {
  import opened Strings

  datatype Option<T> = None | Some(value: T)

  /** A metadata value. `Null` is Python's `None`; `Float` carries the text that
      `str()` gives for the float (floats in metadata are only passed along);
      `Complex` is any other object (list, dict, date, ...) with the text `str()` gives for it. */
  datatype Value =
    | Null
    | Str(s: string)
    | Int(i: int)
    | Float(repr: string)
    | Bool(b: bool)
    | Complex(repr: string)

  /** A metadata dictionary with string keys. */
  type Metadata = map<string, Value>

  /** `isinstance(value, (str, int, float, bool))` */
  predicate IsPrimitive(v: Value) {
    v.Str? || v.Int? || v.Float? || v.Bool?
  }

  /** `str(value)`, as an f-string renders it. */
  function Show(v: Value): string {
    match v
    case Null => "None"
    case Str(s) => s
    case Int(i) => IntToString(i)
    case Float(r) => r
    case Bool(b) => if b then "True" else "False"
    case Complex(r) => r
  }

  /** `d.get(key, default)` */
  function GetOr(m: Metadata, key: string, default: Value): Value {
    if key in m then m[key] else default
  }

  /** Python truthiness of an optional string argument (`None` and `""` are falsy). */
  predicate Truthy(s: Option<string>) {
    s.Some? && s.value != ""
  }

  /** Python truthiness of a value (`bool(v)`): `None`, `""`, `0`, `False` and a
      zero float are falsy, and so is an empty list, dict, tuple or set. */
  predicate TruthyValue(v: Value) {
    match v
    case Null => false
    case Str(s) => s != ""
    case Int(i) => i != 0
    case Float(r) => r != "0.0" && r != "-0.0"
    case Bool(b) => b
    case Complex(r) => r != "[]" && r != "{}" && r != "()" && r != "set()"
  }
}
