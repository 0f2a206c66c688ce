/** ValueComparer: the "by value" ordering the expression language uses for its
    relational and equality operators.

    The specification functions (`Order`, `InternalOrder`, `ElementsOrder`,
    `ScalarOrder`, `ConversionOrder`, `StrictOrder`) state what each step
    yields; the methods `Compare`, `CompareInternal` and `CompareStrict` follow the
    C# statement by statement (parameter reassignment, the loop over list
    elements with its early return) and are proved to compute them. */
module ValueComparer {
  import opened Wrappers
  import opened Values
  import opened Platform
  import opened DecimalPattern

  /** How a comparison with null is answered. */
  datatype NullComparisonMode =
    | MinValue  // null sorts below every other value and equals null
    | Sql       // any comparison touching null is indeterminate

  /** A configured comparer: its two settable properties, its two overridable
      hooks, and the runtime (culture and FormatProvider) it converts under. */
  datatype Comparer = Comparer(
    nullComparison: NullComparisonMode,
    suppressErrors: bool,
    /** Penetrate(obj): unwraps host-specific containers; identity by default. */
    penetrate: Value -> Value,
    /** CustomCompareInternalObject(a, b): a result that pre-empts every rule;
        None (C# null) by default. */
    custom: (Value, Value) -> Option<Int32>,
    env: Runtime
  ) {
    /** Penetrate never makes a value bigger, so the recursion into lists ends. */
    ghost predicate Valid() {
      forall v :: Size(penetrate(v)) <= Size(v)
    }

    /** Neither hook is overridden. */
    ghost predicate HooksAreDefault() {
      && (forall v :: penetrate(v) == v)
      && (forall a, b :: custom(a, b) == None)
    }
  }

  /** A comparer built with `new ValueComparer()`: MinValue nulls, errors thrown,
      neither hook overridden. */
  function Default(env: Runtime): (c: Comparer)
    ensures c.Valid() && c.HooksAreDefault()
    ensures c.nullComparison == MinValue && !c.suppressErrors && c.env == env
  {
    Comparer(MinValue, false, v => v, (a, b) => None, env)
  }

  /** The coercion of a non-bool meeting a bool (`"1".Equals(v) || v is
      Decimal d && d == 1`): only the string "1" exactly, and a decimal equal
      to one at whatever scale, count as true. */
  function TrueLike(v: Value): (r: bool)
    ensures r ==> v.Str? || v.Dec?
    ensures v.Str? ==> (r <==> v.s == "1")
    ensures v.Dec? ==> (r <==> v.d == 1.0)
  {
    v == Str("1") || (v.Dec? && v.d == 1.0)
  }

  /** IsDecimal: Penetrate, then Convert.ToString (which may throw), then the
      pattern. */
  function IsDecimal(c: Comparer, v: Value): (r: Outcome<bool>)
    ensures var s := ToStr(c.env, c.penetrate(v));
      && (s.Err? ==> r == Err(s.error))
      && (s.Ok? ==> r == Ok(IsDecimalString(s.value)))
    ensures IsBuiltin(c.penetrate(v)) ==> r.Ok?
    ensures c.penetrate(v).Null? ==> r == Ok(false)
  {
    match ToStr(c.env, c.penetrate(v))
    case Err(e) => Err(e)
    case Ok(s) => Ok(IsDecimalString(s))
  }

  /** `Decimal.Parse(Convert.ToString(v))`. */
  function ParseStringForm(env: Runtime, v: Value): Outcome<real> {
    match ToStr(env, v)
    case Err(e) => Err(e)
    case Ok(s) => env.parseDecimal(s)
  }

  /** The default CompareInternalObject: the string forms compared in the
      culture, the left one converted first; a ToString that throws is
      thrown. Only a list, wrapper or host operand can throw. */
  function CompareInternalObject(env: Runtime, a: Value, b: Value): (r: Outcome<Int32>)
    ensures ToStr(env, a).Err? ==> r == Err(ToStr(env, a).error)
    ensures ToStr(env, a).Ok? && ToStr(env, b).Err? ==> r == Err(ToStr(env, b).error)
    ensures ToStr(env, a).Ok? && ToStr(env, b).Ok? ==>
      r == Ok(env.cultureCompare(ToStr(env, a).value, ToStr(env, b).value))
    ensures a.Str? && b.Str? ==> r == Ok(env.cultureCompare(a.s, b.s))
    ensures (IsBuiltin(a) || a.Null?) && (IsBuiltin(b) || b.Null?) ==> r.Ok?
  {
    match ToStr(env, a)
    case Err(e) => Err(e)
    case Ok(sa) =>
      match ToStr(env, b)
      case Err(e) => Err(e)
      case Ok(sb) => Ok(env.cultureCompare(sa, sb))
  }

  // ---------------------------------------------------------------------
  // Specification functions

  /** Public Compare(a, b): the nullable result, or the exception it rethrows. */
  function Order(c: Comparer, a: Value, b: Value): Outcome<Option<Int32>>
    requires c.Valid()
    decreases Size(a) + Size(b), 2, 0
  {
    var pa := c.penetrate(a);
    var pb := c.penetrate(b);
    if c.nullComparison == Sql && (pa.Null? || pb.Null?) then Ok(None)
    else
      var r := InternalOrder(c, pa, pb);
      if r.Err? && c.suppressErrors then Ok(None) else r
  }

  /** CompareInternal(a, b), for already penetrated operands. */
  function InternalOrder(c: Comparer, a: Value, b: Value): Outcome<Option<Int32>>
    requires c.Valid()
    decreases Size(a) + Size(b), 1, 0
  {
    var customRet := c.custom(a, b);
    if customRet.Some? then Ok(customRet)
    else if a.Null? && b.Null? then Ok(Some(0))
    else if a.Null? then Ok(Some(-1))
    else if b.Null? then Ok(Some(1))
    else if a.List? && b.List? then
      if |a.items| < |b.items| then Ok(Some(-1))
      else if |a.items| > |b.items| then Ok(Some(1))
      else ElementsOrder(c, a.items, b.items, 0)
    else ScalarOrder(c, a, b)
  }

  /** The element loop from index `i` on: the first element comparison that is
      not 0 (indeterminate included), or the exception it threw; 0 when every
      remaining pair compares 0. */
  function ElementsOrder(c: Comparer, xs: seq<Value>, ys: seq<Value>, i: nat): Outcome<Option<Int32>>
    requires c.Valid()
    requires |xs| == |ys| && i <= |xs|
    decreases (1 + SizeOfAll(xs)) + (1 + SizeOfAll(ys)), 0, |xs| - i
  {
    if i == |xs| then Ok(Some(0))
    else
      ElementSmaller(xs, i);
      ElementSmaller(ys, i);
      var r := Order(c, xs[i], ys[i]);
      if r.Err? || r.value != Some(0) then r
      else ElementsOrder(c, xs, ys, i + 1)
  }

  /** The bool coercion of CompareInternal: if `a` is a bool and `b` is not,
      `b` is replaced by its coercion; then, against that new `b`, the same for
      `a`. Read as a whole: exactly when one side is a bool, the other side is
      coerced. */
  function BoolCoercion(a: Value, b: Value): (r: (Value, Value))
    ensures a.Bool? && !b.Bool? ==> r == (a, Bool(TrueLike(b)))
    ensures !a.Bool? && b.Bool? ==> r == (Bool(TrueLike(a)), b)
    ensures a.Bool? == b.Bool? ==> r == (a, b)
  {
    var b1 := if a.Bool? && !b.Bool? then Bool(TrueLike(b)) else b;
    var a1 := if b1.Bool? && !a.Bool? then Bool(TrueLike(a)) else a;
    (a1, b1)
  }

  /** CompareInternal past the null and list rules: bool coercion, the
      decimal-looking rules (outside the try block, so a parse failure or a
      ToString that throws is thrown), then the conversion rules. */
  function ScalarOrder(c: Comparer, a: Value, b: Value): Outcome<Option<Int32>>
    requires !a.Null? && !b.Null?
  {
    var (a1, b1) := BoolCoercion(a, b);
    match IsDecimal(c, a1)
    case Err(e) => Err(e)
    case Ok(isADecimal) =>
      match IsDecimal(c, b1)
      case Err(e) => Err(e)
      case Ok(isBDecimal) =>
        if isADecimal && isBDecimal then
          match ParseStringForm(c.env, a1)
          case Err(e) => Err(e)
          case Ok(x) =>
            match ParseStringForm(c.env, b1)
            case Err(e) => Err(e)
            case Ok(y) => Ok(Some(RealCompare(x, y)))
        else if isADecimal && b1.Str? then
          match ToStr(c.env, a1)
          case Err(e) => Err(e)
          case Ok(sa) => Ok(Some(c.env.cultureCompare(sa, b1.s)))
        else if a1.Str? && isBDecimal then
          match ToStr(c.env, b1)
          case Err(e) => Err(e)
          case Ok(sb) => Ok(Some(c.env.cultureCompare(a1.s, sb)))
        else
          match ConversionOrder(c.env, a1, b1)
          case Err(e) => Err(e)
          case Ok(n) => Ok(Some(n))
  }

  /** The body of the try block: same-type CompareTo either way round, then
      converting b to a's type, then a to b's type, then the string forms.
      Nothing is converted when neither side is IComparable. */
  function TryCompare(env: Runtime, a: Value, b: Value): (r: Outcome<Int32>)
    requires !a.Null? && !b.Null?
    ensures IsComparable(env, a) && IsAssignableFrom(env, TypeOf(a), TypeOf(b)) ==>
      r == CompareTo(env, a, b)
    ensures !IsComparable(env, a) && !IsComparable(env, b) ==>
      r == CompareInternalObject(env, a, b)
    ensures IsBuiltin(a) && IsBuiltin(b) && TypeOf(a) == TypeOf(b) ==> r.Ok?
    // the left quick compare does not apply and b is an IComparable whose type
    // is assignable from a's: b.CompareTo(a), which may throw, negated
    ensures !(IsComparable(env, a) && IsAssignableFrom(env, TypeOf(a), TypeOf(b))) &&
            IsComparable(env, b) && IsAssignableFrom(env, TypeOf(b), TypeOf(a)) ==>
      r == (match CompareTo(env, b, a)
            case Err(e) => Err(e)
            case Ok(n) => Ok(Neg32(n)))
    // a is IComparable but b's type is not assignable to a's (nor the other way
    // round): b is converted to a's type, which may throw, and then compared
    ensures IsComparable(env, a) && !IsAssignableFrom(env, TypeOf(a), TypeOf(b)) &&
            !(IsComparable(env, b) && IsAssignableFrom(env, TypeOf(b), TypeOf(a))) ==>
      r == (match env.changeType(b, TypeOf(a))
            case Err(e) => Err(e)
            case Ok(bc) => CompareTo(env, a, bc))
    // only b is IComparable and a's type is not assignable to b's: a is
    // converted to b's type and the comparison from b's side is negated
    ensures !IsComparable(env, a) && IsComparable(env, b) && !IsAssignableFrom(env, TypeOf(b), TypeOf(a)) ==>
      r == (match env.changeType(a, TypeOf(b))
            case Err(e) => Err(e)
            case Ok(ac) => (match CompareTo(env, b, ac)
                            case Err(e) => Err(e)
                            case Ok(n) => Ok(Neg32(n))))
  {
    if IsComparable(env, a) && IsAssignableFrom(env, TypeOf(a), TypeOf(b)) then
      CompareTo(env, a, b)
    else if IsComparable(env, b) && IsAssignableFrom(env, TypeOf(b), TypeOf(a)) then
      match CompareTo(env, b, a)
      case Err(e) => Err(e)
      case Ok(n) => Ok(Neg32(n))
    else if IsComparable(env, a) then
      match env.changeType(b, TypeOf(a))
      case Err(e) => Err(e)
      case Ok(bConverted) => CompareTo(env, a, bConverted)
    else if IsComparable(env, b) then
      match env.changeType(a, TypeOf(b))
      case Err(e) => Err(e)
      case Ok(aConverted) =>
        match CompareTo(env, b, aConverted)
        case Err(e) => Err(e)
        case Ok(n) => Ok(Neg32(n))
    else CompareInternalObject(env, a, b)
  }

  /** The try block with its catch: on an exception, -1 when the runtime types
      differ, otherwise the string forms compared (an exception there leaves
      the catch block). So only operands of one runtime type can throw. */
  function ConversionOrder(env: Runtime, a: Value, b: Value): (r: Outcome<Int32>)
    requires !a.Null? && !b.Null?
    ensures TryCompare(env, a, b).Ok? ==> r == TryCompare(env, a, b)
    ensures TryCompare(env, a, b).Err? && TypeOf(a) != TypeOf(b) ==> r == Ok(-1)
    ensures TryCompare(env, a, b).Err? && TypeOf(a) == TypeOf(b) ==>
      r == CompareInternalObject(env, a, b)
    ensures r.Err? ==> TypeOf(a) == TypeOf(b) && TryCompare(env, a, b).Err?
  {
    match TryCompare(env, a, b)
    case Ok(n) => Ok(n)
    case Err(_) =>
      if TypeOf(a) != TypeOf(b) then Ok(-1) else CompareInternalObject(env, a, b)
  }

  /** IComparer.Compare(a, b): no Sql null rule and no suppression; an
      indeterminate result becomes an ArgumentException. */
  function StrictOrder(c: Comparer, a: Value, b: Value): Outcome<Int32>
    requires c.Valid()
  {
    match InternalOrder(c, c.penetrate(a), c.penetrate(b))
    case Err(e) => Err(e)
    case Ok(None) => Err(ArgumentException)
    case Ok(Some(n)) => Ok(n)
  }

  // ---------------------------------------------------------------------
  // The procedures, statement by statement

  /** Compare(object a, object b): the try block of the public comparer. */
  method Compare(c: Comparer, a: Value, b: Value) returns (r: Outcome<Option<Int32>>)
    requires c.Valid()
    ensures r == Order(c, a, b)
    decreases Size(a) + Size(b), 1
  {
    var pa := c.penetrate(a);
    var pb := c.penetrate(b);
    if c.nullComparison == Sql {
      if pa.Null? || pb.Null? {
        return Ok(None);
      }
    }
    r := CompareInternal(c, pa, pb);
    if r.Err? && c.suppressErrors {
      r := Ok(None);
    }
  }

  /** CompareInternal(object a, object b). */
  method CompareInternal(c: Comparer, a0: Value, b0: Value) returns (r: Outcome<Option<Int32>>)
    requires c.Valid()
    ensures r == InternalOrder(c, a0, b0)
    decreases Size(a0) + Size(b0), 0
  {
    var a, b := a0, b0;
    var customRet := c.custom(a, b);
    if customRet.Some? {
      return Ok(customRet);
    }
    if a.Null? && b.Null? {
      return Ok(Some(0));
    }
    if a.Null? && !b.Null? {
      return Ok(Some(-1));
    }
    if !a.Null? && b.Null? {
      return Ok(Some(1));
    }
    if a.List? && b.List? {
      var aList, bList := a.items, b.items;
      if |aList| < |bList| {
        return Ok(Some(-1));
      }
      if |aList| > |bList| {
        return Ok(Some(1));
      }
      for i := 0 to |aList|
        invariant ElementsOrder(c, aList, bList, i) == ElementsOrder(c, aList, bList, 0)
      {
        ElementSmaller(aList, i);
        ElementSmaller(bList, i);
        var el := Compare(c, aList[i], bList[i]);
        if el.Err? {
          return el;  // the exception propagates
        }
        if el.value.None? || el.value.value != 0 {
          return el;
        }
      }
      // lists are equal
      return Ok(Some(0));
    }
    if a.Bool? && !b.Bool? {
      b := Bool(TrueLike(b));
    }
    if b.Bool? && !a.Bool? {
      a := Bool(TrueLike(a));
    }
    var isADecimal := IsDecimal(c, a);
    if isADecimal.Err? {
      return Err(isADecimal.error);
    }
    var isBDecimal := IsDecimal(c, b);
    if isBDecimal.Err? {
      return Err(isBDecimal.error);
    }
    if isADecimal.value && isBDecimal.value {
      var x := ParseStringForm(c.env, a);
      if x.Err? {
        return Err(x.error);
      }
      var y := ParseStringForm(c.env, b);
      if y.Err? {
        return Err(y.error);
      }
      return Ok(Some(RealCompare(x.value, y.value)));
    }
    if isADecimal.value && b.Str? {
      var sa := ToStr(c.env, a);
      if sa.Err? {
        return Err(sa.error);
      }
      return Ok(Some(c.env.cultureCompare(sa.value, b.s)));
    }
    if a.Str? && isBDecimal.value {
      var sb := ToStr(c.env, b);
      if sb.Err? {
        return Err(sb.error);
      }
      return Ok(Some(c.env.cultureCompare(a.s, sb.value)));
    }
    var attempt := TryCompare(c.env, a, b);
    if attempt.Ok? {
      return Ok(Some(attempt.value));
    }
    // catch
    if !a.Null? && !b.Null? && TypeOf(a) != TypeOf(b) {
      return Ok(Some(-1));
    }
    var fallback := CompareInternalObject(c.env, a, b);
    if fallback.Err? {
      return Err(fallback.error);  // thrown from the catch block
    }
    return Ok(Some(fallback.value));
  }

  /** IComparer.Compare(object a, object b). */
  method CompareStrict(c: Comparer, a: Value, b: Value) returns (r: Outcome<Int32>)
    requires c.Valid()
    ensures r == StrictOrder(c, a, b)
  {
    var pa := c.penetrate(a);
    var pb := c.penetrate(b);
    var res := CompareInternal(c, pa, pb);
    if res.Err? {
      return Err(res.error);
    }
    if res.value.None? {
      return Err(ArgumentException);  // "Cannot compare {0} and {1}"
    }
    return Ok(res.value.value);
  }
}
