/** The .NET facilities the comparer and ExactEquals lean on. Those whose result
    depends on the current culture, on the comparer's FormatProvider or on host
    types' own code (which may throw) are parameters (`Runtime`'s function
    fields); those the framework fixes for Boolean, Decimal and String are
    written out. */
module Platform {
  import opened Wrappers
  import opened Values

  datatype Runtime = Runtime(
    /** Decimal.ToString() in the current culture; the scale shows in the text
        (1.0m is "1.0", 1.00m is "1.00"). */
    decimalToString: (real, DecimalScale) -> string,
    /** ToString() of a list, wrapper or host object, or what it throws (for an
        array or List<object>, the text of its type name). */
    hostToString: Value -> Outcome<string>,
    /** Decimal.Parse in the current culture. */
    parseDecimal: string -> Outcome<real>,
    /** string.CompareTo(string) in the current culture. */
    cultureCompare: (string, string) -> Int32,
    /** Whether a wrapper, list or host type implements IComparable. */
    hostComparable: TypeTag -> bool,
    /** Type.IsAssignableFrom(x, y) for x a list, wrapper or host type. */
    hostAssignable: (TypeTag, TypeTag) -> bool,
    /** IComparable.CompareTo(object) of a list, wrapper or host object. */
    hostCompareTo: (Value, Value) -> Outcome<Int32>,
    /** Convert.ChangeType(value, type, FormatProvider). */
    changeType: (Value, TypeTag) -> Outcome<Value>,
    /** object.Equals(object) of a list, wrapper or host object, or what it
        throws (for an array or List<object>, whether the two are the same
        object, i.e. carry the same identity handle). */
    hostEquals: (Value, Value) -> Outcome<bool>
  )

  /** Convert.ToString(object): "" for null, "True"/"False" for a bool, the
      string itself for a string, the culture's text for a decimal; any other
      object's own ToString, which may throw. */
  function ToStr(rt: Runtime, v: Value): (r: Outcome<string>)
    ensures IsBuiltin(v) || v.Null? ==> r.Ok?
  {
    match v
    case Null => Ok("")
    case Bool(b) => if b then Ok("True") else Ok("False")
    case Dec(d, scale) => Ok(rt.decimalToString(d, scale))
    case Str(s) => Ok(s)
    case _ => rt.hostToString(v)
  }

  /** `v is IComparable`: Boolean, Decimal and String are; every other type,
      list types included (arrays and List<object> are not), says for itself. */
  predicate IsComparable(rt: Runtime, v: Value) {
    match v
    case Null => false
    case Bool(_) => true
    case Dec(_, _) => true
    case Str(_) => true
    case List(t, _, _) => rt.hostComparable(ListType(t))
    case Wrapped(_) => rt.hostComparable(WrapperType)
    case Host(t, _) => rt.hostComparable(HostType(t))
  }

  /** Type.IsAssignableFrom between runtime types: every type is assignable from
      itself; Boolean, Decimal (structs) and String (sealed) from nothing else. */
  predicate IsAssignableFrom(rt: Runtime, x: TypeTag, y: TypeTag) {
    x == y || (!(x.BooleanType? || x.DecimalType? || x.StringType?) && rt.hostAssignable(x, y))
  }

  /** The order true > false of Boolean.CompareTo. */
  function BoolCompare(x: bool, y: bool): Int32 {
    if x == y then 0 else if !x then -1 else 1
  }

  /** The sign of x - y, which is what Decimal.CompareTo returns. */
  function RealCompare(x: real, y: real): Int32 {
    if x < y then -1 else if x > y then 1 else 0
  }

  /** `a.CompareTo(b)` for an IComparable `a`. The built-in types return 1 for
      null and throw ArgumentException for an argument of another type. */
  function CompareTo(rt: Runtime, a: Value, b: Value): Outcome<Int32>
    requires IsComparable(rt, a)
  {
    match a
    case Bool(x) =>
      if b.Null? then Ok(1) else if b.Bool? then Ok(BoolCompare(x, b.b)) else Err(ArgumentException)
    case Dec(x, _) =>
      if b.Null? then Ok(1) else if b.Dec? then Ok(RealCompare(x, b.d)) else Err(ArgumentException)
    case Str(x) =>
      if b.Null? then Ok(1) else if b.Str? then Ok(rt.cultureCompare(x, b.s)) else Err(ArgumentException)
    case _ => rt.hostCompareTo(a, b)
  }

  /** `a.Equals(b)` for a non-null `a`: the built-in types are equal only to a
      value of their own type holding the same content (a decimal's scale
      does not count); other objects answer for themselves and may throw. */
  function ObjectEquals(rt: Runtime, a: Value, b: Value): (r: Outcome<bool>)
    requires !a.Null?
    ensures IsBuiltin(a) ==> r.Ok?
  {
    match a
    case Bool(x) => Ok(b.Bool? && b.b == x)
    case Dec(x, _) => Ok(b.Dec? && b.d == x)
    case Str(x) => Ok(b.Str? && b.s == x)
    case _ => rt.hostEquals(a, b)
  }
}
