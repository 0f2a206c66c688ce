/** ExtendedMethods: the exact (no-coercion) equality behind the language's
    exact-equals operators. */
module ExtendedMethods {
  import opened Wrappers
  import opened Values
  import opened Platform
  import ValueComparer
  import ComparerProperties
  import DecimalPattern

  /** A LambdaParameterWrapper is replaced by its `.Value`, once: the identity
      exactly on values that are not wrappers, and one layer less on a
      wrapper. */
  function Unwrap(v: Value): (r: Value)
    ensures v.Wrapped? ==> Size(r) < Size(v)
    ensures r == v <==> !v.Wrapped?
    ensures v.Wrapped? ==> Wrapped(r) == v
  {
    if v.Wrapped? then v.inner else v
  }

  /** ExactEquals(obj1, obj2): null-aware `left.Equals(right)` of the
      unwrapped operands; an exception from Equals is thrown. */
  function ExactEquals(rt: Runtime, obj1: Value, obj2: Value): (r: Outcome<bool>)
    ensures Unwrap(obj1).Null? && Unwrap(obj2).Null? ==> r == Ok(true)
    ensures Unwrap(obj1).Null? != Unwrap(obj2).Null? ==> r == Ok(false)
    ensures !Unwrap(obj1).Null? && !Unwrap(obj2).Null? ==>
      r == ObjectEquals(rt, Unwrap(obj1), Unwrap(obj2))
  {
    var left := Unwrap(obj1);
    var right := Unwrap(obj2);
    if left.Null? && right.Null? then Ok(true)
    else if !left.Null? && !right.Null? then ObjectEquals(rt, left, right)
    else Ok(false)
  }

  /** NotExactEquals(obj1, obj2): true when exactly one unwrapped side is null,
      or both are set and not Equals; false when both are null or Equals; an
      exception from Equals is thrown. */
  function NotExactEquals(rt: Runtime, obj1: Value, obj2: Value): (r: Outcome<bool>)
    ensures var left, right := Unwrap(obj1), Unwrap(obj2);
      && (r == Ok(true) <==>
          || left.Null? != right.Null?
          || (!left.Null? && !right.Null? && ObjectEquals(rt, left, right) == Ok(false)))
      && (r == Ok(false) <==>
          || (left.Null? && right.Null?)
          || (!left.Null? && !right.Null? && ObjectEquals(rt, left, right) == Ok(true)))
      && (r.Err? ==> !left.Null? && !right.Null? && ObjectEquals(rt, left, right) == Err(r.error))
  {
    match ExactEquals(rt, obj1, obj2)
    case Err(e) => Err(e)
    case Ok(eq) => Ok(!eq)
  }

  /** Wrapping a value that is not itself a wrapper changes nothing, on
      either side. */
  lemma WrappingIsTransparent(rt: Runtime, x: Value, y: Value)
    requires !x.Wrapped?
    ensures ExactEquals(rt, Wrapped(x), y) == ExactEquals(rt, x, y)
    ensures ExactEquals(rt, y, Wrapped(x)) == ExactEquals(rt, y, x)
  {
  }

  /** No cross-type coercion: a bool, decimal or string (after unwrapping) is
      never exactly equal to a value of another runtime type. */
  lemma NoCrossTypeEquality(rt: Runtime, a: Value, b: Value)
    requires IsBuiltin(Unwrap(a)) && !Unwrap(b).Null?
    requires TypeOf(Unwrap(a)) != TypeOf(Unwrap(b))
    ensures ExactEquals(rt, a, b) == Ok(false)
  {
  }

  /** On bools, decimals and strings exact equality is equality of the values;
      a decimal's scale does not count. */
  lemma BuiltinExactEqualityIsValueEquality(rt: Runtime, a: Value, b: Value)
    requires IsBuiltin(Unwrap(a)) && IsBuiltin(Unwrap(b))
    ensures var x, y := Unwrap(a), Unwrap(b);
      ExactEquals(rt, a, b) == Ok(if x.Dec? && y.Dec? then x.d == y.d else x == y)
  {
  }

  /** Exact and loose equality part ways: `true` and the decimal 1 compare
      equal under the default comparer, yet are not exactly equal. */
  lemma ExactIsStricterThanCompare(c: ValueComparer.Comparer)
    requires c.Valid() && c.HooksAreDefault()
    ensures ValueComparer.Order(c, Bool(true), Dec(1.0, 0)) == Ok(Some(0))
    ensures ExactEquals(c.env, Bool(true), Dec(1.0, 0)) == Ok(false)
    ensures ExactEquals(c.env, Dec(1.0, 0), Str("1")) == Ok(false)
  {
    ComparerProperties.BoolAgainstNonBool(c, true, Dec(1.0, 0));
  }

  /** Two distinct arrays holding the decimal 1 compare equal element by
      element, yet are not exactly equal where Equals is reference equality. */
  lemma DistinctListsEqualOnlyUnderCompare(c: ValueComparer.Comparer, t: string, h: nat, h': nat)
    requires c.Valid() && c.HooksAreDefault()
    requires var s := c.env.decimalToString(1.0, 0); DecimalPattern.IsDecimalString(s) ==> c.env.parseDecimal(s).Ok?
    requires c.env.hostEquals(List(t, h, [Dec(1.0, 0)]), List(t, h', [Dec(1.0, 0)])) == Ok(h == h')
    requires h != h'
    ensures ValueComparer.Order(c, List(t, h, [Dec(1.0, 0)]), List(t, h', [Dec(1.0, 0)])) == Ok(Some(0))
    ensures ExactEquals(c.env, List(t, h, [Dec(1.0, 0)]), List(t, h', [Dec(1.0, 0)])) == Ok(false)
  {
    ComparerProperties.SingletonDecimalListsEqual(c, t, h, t, h');
  }

  /** 1.0m and 1.00m are exactly equal, yet the comparer can order them
      differently against a string that does not look decimal, because it
      compares their texts "1.0" and "1.00". */
  lemma ScaleShowsOnlyInText(c: ValueComparer.Comparer)
    requires c.Valid() && c.HooksAreDefault()
    requires c.env.decimalToString(1.0, 1) == "1.0" && c.env.decimalToString(1.0, 2) == "1.00"
    requires c.env.cultureCompare("1.0", "1.0 ") == -1 && c.env.cultureCompare("1.00", "1.0 ") == 1
    ensures ExactEquals(c.env, Dec(1.0, 1), Dec(1.0, 2)) == Ok(true)
    ensures ValueComparer.Order(c, Dec(1.0, 1), Str("1.0 ")) == Ok(Some(-1))
    ensures ValueComparer.Order(c, Dec(1.0, 2), Str("1.0 ")) == Ok(Some(1))
  {
    DecimalPattern.OneTexts();
    ComparerProperties.DecimalAgainstText(c, 1.0, 1, "1.0 ");
    ComparerProperties.DecimalAgainstText(c, 1.0, 2, "1.0 ");
  }
}
