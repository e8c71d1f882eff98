/** The Python values the field adapters and the repair command handle, the
    built-ins they apply to them (`str`, `int`, truth), and the exceptions they
    raise. */
module Values {
  import opened Wrappers
  import Decimal

  /** A Python value: `None`, a `str`, an `int`, or any other object, given by
      its `str()`, what `int()` makes of it (None where `int()` raises
      `ValueError` or `TypeError`) and its truth value. */
  datatype Value = Null | Str(s: string) | Int(i: int) | Obj(text: string, asInt: Option<int>, truthy: bool)

  /** `str(v)`. */
  function StrOf(v: Value): (r: string)
  {
    match v
    case Null => "None"
    case Str(s) => s
    case Int(i) => Decimal.Render(i)
    case Obj(t, _, _) => t
  }

  /** `int(v)`; None where it raises `ValueError` or `TypeError`. */
  function IntOf(v: Value): (r: Option<int>)
  {
    match v
    case Null => None
    case Str(s) => Decimal.Parse(s)
    case Int(i) => Some(i)
    case Obj(_, n, _) => n
  }

  /** `bool(v)`, as `if v:` tests it. */
  predicate Truthy(v: Value)
  {
    match v
    case Null => false
    case Str(s) => s != ""
    case Int(i) => i != 0
    case Obj(_, _, t) => t
  }

  /** `int(str(v))` agrees with `int(v)` on integers. */
  lemma IntOfStrOfInt(i: int)
    ensures IntOf(Str(StrOf(Int(i)))) == IntOf(Int(i)) == Some(i)
  {
    Decimal.ParseRender(i);
  }

  /** The exceptions the core raises. `InvalidKey` is the `ValueError` of the
      `Fernet` constructor, `InvalidToken` Fernet's own exception, and
      `NotAnInteger` the `ValueError` or `TypeError` of `int()`. */
  datatype Error =
    | ImproperlyConfigured(message: string)
    | InvalidKey
    | InvalidToken
    | NotAnInteger
    | ValidationError(message: string)

  /** A call that returns a value or raises. */
  datatype Outcome<+T> = Ok(value: T) | Raise(error: Error)
}
