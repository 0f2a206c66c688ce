/** What the comparer promises, proved about its specification functions. */
module ComparerProperties {
  import opened Wrappers
  import opened Values
  import opened Platform
  import opened DecimalPattern
  import opened ValueComparer

  // ---------------------------------------------------------------------
  // Nulls

  /** Sql mode: a comparison touching null, null against null included, is
      indeterminate. */
  lemma SqlNullIsIndeterminate(c: Comparer, a: Value, b: Value)
    requires c.Valid() && c.nullComparison == Sql
    requires c.penetrate(a).Null? || c.penetrate(b).Null?
    ensures Order(c, a, b) == Ok(None)
  {
  }

  /** MinValue mode, with no custom result: null is equal to null and below
      everything else. */
  lemma MinValueNullOrdering(c: Comparer, a: Value, b: Value)
    requires c.Valid() && c.nullComparison == MinValue
    requires c.custom(c.penetrate(a), c.penetrate(b)).None?
    ensures var pa, pb := c.penetrate(a), c.penetrate(b);
      && (pa.Null? && pb.Null? ==> Order(c, a, b) == Ok(Some(0)))
      && (pa.Null? && !pb.Null? ==> Order(c, a, b) == Ok(Some(-1)))
      && (!pa.Null? && pb.Null? ==> Order(c, a, b) == Ok(Some(1)))
  {
  }

  // ---------------------------------------------------------------------
  // The custom hook

  /** A result of CustomCompareInternalObject is the answer, before every
      other rule, of both Compare and IComparer.Compare (Compare's Sql null
      rule runs before CompareInternal and so still wins there). */
  lemma CustomHookPreempts(c: Comparer, a: Value, b: Value, n: Int32)
    requires c.Valid()
    requires c.custom(c.penetrate(a), c.penetrate(b)) == Some(n)
    ensures c.nullComparison == MinValue || (!c.penetrate(a).Null? && !c.penetrate(b).Null?)
      ==> Order(c, a, b) == Ok(Some(n))
    ensures StrictOrder(c, a, b) == Ok(n)
  {
  }

  // ---------------------------------------------------------------------
  // Lists

  /** Lists of different lengths order by length. */
  lemma ListLengthOrder(c: Comparer, a: Value, b: Value)
    requires c.Valid() && a.List? && b.List? && c.custom(a, b).None?
    ensures |a.items| < |b.items| ==> InternalOrder(c, a, b) == Ok(Some(-1))
    ensures |a.items| > |b.items| ==> InternalOrder(c, a, b) == Ok(Some(1))
  {
  }

  /** Two lists are compared by their elements alone: neither their runtime
      types nor their identities take part. */
  lemma ListOrderIgnoresTypeAndIdentity(c: Comparer, a: Value, b: Value, a': Value, b': Value)
    requires c.Valid() && a.List? && b.List? && a'.List? && b'.List?
    requires c.custom(a, b).None? && c.custom(a', b').None?
    requires a.items == a'.items && b.items == b'.items
    ensures InternalOrder(c, a, b) == InternalOrder(c, a', b')
  {
  }

  lemma {:induction false} ElementsZeroIffAllZero(c: Comparer, xs: seq<Value>, ys: seq<Value>, i: nat)
    requires c.Valid() && |xs| == |ys| && i <= |xs|
    ensures ElementsOrder(c, xs, ys, i) == Ok(Some(0))
      <==> forall j :: i <= j < |xs| ==> Order(c, xs[j], ys[j]) == Ok(Some(0))
    decreases |xs| - i
  {
    if i < |xs| {
      ElementsZeroIffAllZero(c, xs, ys, i + 1);
    }
  }

  /** Equal-length lists are equal exactly when every pair of elements is. */
  lemma ListsEqualIffElementsEqual(c: Comparer, a: Value, b: Value)
    requires c.Valid() && a.List? && b.List? && c.custom(a, b).None?
    requires |a.items| == |b.items|
    ensures InternalOrder(c, a, b) == Ok(Some(0))
      <==> forall j :: 0 <= j < |a.items| ==> Order(c, a.items[j], b.items[j]) == Ok(Some(0))
  {
    ElementsZeroIffAllZero(c, a.items, b.items, 0);
  }

  lemma {:induction false} ElementsFirstDifference(c: Comparer, xs: seq<Value>, ys: seq<Value>, i: nat, k: nat)
    requires c.Valid() && |xs| == |ys| && i <= k < |xs|
    requires forall j :: i <= j < k ==> Order(c, xs[j], ys[j]) == Ok(Some(0))
    requires Order(c, xs[k], ys[k]) != Ok(Some(0))
    ensures ElementsOrder(c, xs, ys, i) == Order(c, xs[k], ys[k])
    decreases k - i
  {
    if i < k {
      ElementsFirstDifference(c, xs, ys, i + 1, k);
    }
  }

  /** Equal-length lists: the first element comparison that is not 0 decides,
      whether it is an order, an indeterminate result or an exception. */
  lemma FirstDifferingElementDecides(c: Comparer, a: Value, b: Value, k: nat)
    requires c.Valid() && a.List? && b.List? && c.custom(a, b).None?
    requires |a.items| == |b.items| && k < |a.items|
    requires forall j :: 0 <= j < k ==> Order(c, a.items[j], b.items[j]) == Ok(Some(0))
    requires Order(c, a.items[k], b.items[k]) != Ok(Some(0))
    ensures InternalOrder(c, a, b) == Order(c, a.items[k], b.items[k])
  {
    ElementsFirstDifference(c, a.items, b.items, 0, k);
  }

  /** Elements are compared by the public Compare, so in Sql mode a null
      element makes the whole list comparison indeterminate, and
      IComparer.Compare, which skips the Sql rule only at the top, throws. */
  lemma SqlNullElementIsIndeterminate(c: Comparer, a: Value, b: Value, k: nat)
    requires c.Valid() && c.nullComparison == Sql
    requires a.List? && b.List? && c.custom(a, b).None?
    requires c.penetrate(a) == a && c.penetrate(b) == b
    requires |a.items| == |b.items| && k < |a.items|
    requires forall j :: 0 <= j < k ==> Order(c, a.items[j], b.items[j]) == Ok(Some(0))
    requires c.penetrate(a.items[k]).Null? || c.penetrate(b.items[k]).Null?
    ensures InternalOrder(c, a, b) == Ok(None)
    ensures Order(c, a, b) == Ok(None)
    ensures StrictOrder(c, a, b) == Err(ArgumentException)
  {
    FirstDifferingElementDecides(c, a, b, k);
  }

  // ---------------------------------------------------------------------
  // Decimals

  /** A decimal is equal to itself unless it looks decimal and its string
      form then fails to parse. */
  lemma DecimalSelfEqual(c: Comparer, d: real, scale: DecimalScale)
    requires c.Valid() && c.HooksAreDefault()
    requires var s := c.env.decimalToString(d, scale); IsDecimalString(s) ==> c.env.parseDecimal(s).Ok?
    ensures Order(c, Dec(d, scale), Dec(d, scale)) == Ok(Some(0))
  {
  }

  /** `new[]{ one } == new[] { 1 }`: two distinct one-element lists holding the
      decimal 1, whatever their array types. */
  lemma SingletonDecimalListsEqual(c: Comparer, t: string, h: nat, t': string, h': nat)
    requires c.Valid() && c.HooksAreDefault()
    requires var s := c.env.decimalToString(1.0, 0); IsDecimalString(s) ==> c.env.parseDecimal(s).Ok?
    ensures Order(c, List(t, h, [Dec(1.0, 0)]), List(t', h', [Dec(1.0, 0)])) == Ok(Some(0))
  {
    var a, b := List(t, h, [Dec(1.0, 0)]), List(t', h', [Dec(1.0, 0)]);
    assert c.penetrate(a) == a && c.penetrate(b) == b;
    DecimalSelfEqual(c, 1.0, 0);
    ListsEqualIffElementsEqual(c, a, b);
  }

  /** When both sides look decimal (and neither is a bool nor both lists),
      their string forms are parsed and compared as numbers; a parse failure
      is thrown, the left side's first. */
  lemma DecimalLookingCompareNumerically(c: Comparer, a: Value, b: Value)
    requires c.Valid() && c.custom(a, b).None?
    requires !a.Null? && !b.Null? && !a.Bool? && !b.Bool? && !(a.List? && b.List?)
    requires IsDecimal(c, a) == Ok(true) && IsDecimal(c, b) == Ok(true)
    ensures var pa, pb := ParseStringForm(c.env, a), ParseStringForm(c.env, b);
      && (pa.Ok? && pb.Ok? ==> InternalOrder(c, a, b) == Ok(Some(RealCompare(pa.value, pb.value))))
      && (pa.Err? ==> InternalOrder(c, a, b) == Err(pa.error))
      && (pa.Ok? && pb.Err? ==> InternalOrder(c, a, b) == Err(pb.error))
  {
  }

  /** A decimal-looking side against a string that does not look decimal is
      compared as text, the decimal side by its string form (whose ToString,
      called again, may throw). */
  lemma DecimalLookingAgainstText(c: Comparer, a: Value, s: string)
    requires c.Valid() && !a.Null? && !a.Bool?
    requires IsDecimal(c, a) == Ok(true) && IsDecimal(c, Str(s)) == Ok(false)
    ensures var ta := ToStr(c.env, a);
      && (c.custom(a, Str(s)).None? ==>
            InternalOrder(c, a, Str(s)) ==
              (if ta.Ok? then Ok(Some(c.env.cultureCompare(ta.value, s))) else Err(ta.error)))
      && (c.custom(Str(s), a).None? ==>
            InternalOrder(c, Str(s), a) ==
              (if ta.Ok? then Ok(Some(c.env.cultureCompare(s, ta.value))) else Err(ta.error)))
  {
  }

  /** Default hooks: a decimal whose text looks decimal, against a string
      that does not, is ordered by its text. */
  lemma DecimalAgainstText(c: Comparer, d: real, scale: DecimalScale, s: string)
    requires c.Valid() && c.HooksAreDefault()
    requires IsDecimalString(c.env.decimalToString(d, scale)) && !IsDecimalString(s)
    ensures Order(c, Dec(d, scale), Str(s)) == Ok(Some(c.env.cultureCompare(c.env.decimalToString(d, scale), s)))
  {
    DecimalLookingAgainstText(c, Dec(d, scale), s);
  }

  /** `"4.00" == 4.0`: under a culture that writes 4.0 as "4.0" and parses
      both texts to four, the two compare equal. */
  lemma TextAndDecimalCompareNumerically(c: Comparer)
    requires c.Valid() && c.HooksAreDefault()
    requires c.env.decimalToString(4.0, 1) == "4.0"
    requires c.env.parseDecimal("4.00") == Ok(4.0) && c.env.parseDecimal("4.0") == Ok(4.0)
    ensures Order(c, Str("4.00"), Dec(4.0, 1)) == Ok(Some(0))
    ensures Order(c, Dec(4.0, 1), Str("4.00")) == Ok(Some(0))
  {
    var a, b := Str("4.00"), Dec(4.0, 1);
    assert c.penetrate(a) == a && c.penetrate(b) == b;
    FourTexts();
    assert IsDecimal(c, a) == Ok(true) && IsDecimal(c, b) == Ok(true);
    DecimalLookingCompareNumerically(c, a, b);
    DecimalLookingCompareNumerically(c, b, a);
  }

  /** The unescaped `.` lets "1a5" look decimal, so comparing it with a
      decimal reaches Decimal.Parse("1a5"), whose exception Compare rethrows
      (or turns into an indeterminate result when errors are suppressed). */
  lemma LetterInPlaceOfDotReachesParse(c: Comparer, d: real, scale: DecimalScale)
    requires c.Valid() && c.HooksAreDefault()
    requires IsDecimalString(c.env.decimalToString(d, scale))
    requires c.env.parseDecimal("1a5") == Err(FormatException)
    ensures Order(c, Str("1a5"), Dec(d, scale)) == if c.suppressErrors then Ok(None) else Err(FormatException)
  {
  }

  /** A decimal-looking string and a decimal-looking value whose string
      forms parse to the same number compare equal. */
  lemma NumericTextsEqual(c: Comparer, s: string, b: Value, x: real)
    requires c.Valid() && c.HooksAreDefault()
    requires !b.Null? && !b.Bool? && !b.List?
    requires IsDecimalString(s) && c.env.parseDecimal(s) == Ok(x)
    requires IsDecimal(c, b) == Ok(true) && ParseStringForm(c.env, b) == Ok(x)
    ensures Order(c, Str(s), b) == Ok(Some(0))
  {
    DecimalLookingCompareNumerically(c, Str(s), b);
  }

  /** `"1400.00" == a` with `a` the int 1400: both sides look decimal, so they
      are compared as parsed numbers although their types differ. */
  lemma IntAndDecimalTextEqual(c: Comparer, h: nat)
    requires c.Valid() && c.HooksAreDefault()
    requires c.env.hostToString(Host("System.Int32", h)) == Ok("1400")
    requires c.env.parseDecimal("1400.00") == Ok(1400.0) && c.env.parseDecimal("1400") == Ok(1400.0)
    ensures Order(c, Str("1400.00"), Host("System.Int32", h)) == Ok(Some(0))
  {
    var b := Host("System.Int32", h);
    assert c.penetrate(b) == b;
    FourteenHundredTexts();
    assert IsDecimal(c, b) == Ok(true);
    NumericTextsEqual(c, "1400.00", b, 1400.0);
  }

  /** `"2" < "16a"`: "16a" does not look decimal, so the two strings are
      compared as text, not as numbers. */
  lemma PageNumberComparedAsText(c: Comparer)
    requires c.Valid() && c.HooksAreDefault()
    ensures Order(c, Str("2"), Str("16a")) == Ok(Some(c.env.cultureCompare("2", "16a")))
  {
  }

  // ---------------------------------------------------------------------
  // Bools

  /** Neither "True" nor "False" looks decimal, so a bool never does. */
  lemma BoolNotDecimalLooking(env: Runtime, x: bool)
    ensures ToStr(env, Bool(x)).Ok? && !IsDecimalString(ToStr(env, Bool(x)).value)
  {
  }

  /** A bool meeting a non-bool (either side) compares as if the non-bool
      were the bool `TrueLike(v)`. */
  lemma BoolMeetsNonBool(c: Comparer, x: bool, v: Value)
    requires c.Valid() && !v.Null? && !v.Bool?
    ensures c.custom(Bool(x), v).None? && c.custom(Bool(x), Bool(TrueLike(v))).None? ==>
      InternalOrder(c, Bool(x), v) == InternalOrder(c, Bool(x), Bool(TrueLike(v)))
    ensures c.custom(v, Bool(x)).None? && c.custom(Bool(TrueLike(v)), Bool(x)).None? ==>
      InternalOrder(c, v, Bool(x)) == InternalOrder(c, Bool(TrueLike(v)), Bool(x))
  {
  }

  /** Hooks not overridden: a bool against a non-bool value is the bool order
      against "is it the string "1" or the decimal 1". */
  lemma BoolAgainstNonBool(c: Comparer, x: bool, v: Value)
    requires c.Valid() && c.HooksAreDefault() && !v.Null? && !v.Bool?
    ensures var one := TrueLike(v);
      && Order(c, Bool(x), v) == Ok(Some(BoolCompare(x, one)))
      && Order(c, v, Bool(x)) == Ok(Some(BoolCompare(one, x)))
  {
  }

  /** `true == 1` (at any scale), `"1" == true`, and `false == "1"` (false
      is below true). */
  lemma BoolEquivalenceExamples(c: Comparer)
    requires c.Valid() && c.HooksAreDefault()
    ensures Order(c, Bool(true), Dec(1.0, 0)) == Ok(Some(0))
    ensures Order(c, Bool(true), Dec(1.0, 2)) == Ok(Some(0))
    ensures Order(c, Str("1"), Bool(true)) == Ok(Some(0))
    ensures Order(c, Bool(false), Str("1")) == Ok(Some(-1))
    ensures Order(c, Bool(true), Str("yes")) == Ok(Some(1))
  {
    BoolAgainstNonBool(c, true, Dec(1.0, 0));
    BoolAgainstNonBool(c, true, Dec(1.0, 2));
    BoolAgainstNonBool(c, true, Str("1"));
    BoolAgainstNonBool(c, false, Str("1"));
    BoolAgainstNonBool(c, true, Str("yes"));
  }

  // ---------------------------------------------------------------------
  // Conversions and exceptions

  /** An exception inside the try block: -1 for operands of different runtime
      types, otherwise their string forms compared. */
  lemma ConversionFailureOrder(env: Runtime, a: Value, b: Value)
    requires !a.Null? && !b.Null? && TryCompare(env, a, b).Err?
    ensures TypeOf(a) != TypeOf(b) ==> ConversionOrder(env, a, b) == Ok(-1)
    ensures TypeOf(a) == TypeOf(b) ==> ConversionOrder(env, a, b) == CompareInternalObject(env, a, b)
  {
  }

  /** Two operands of one built-in type compare by that type's own order. */
  lemma SameBuiltinTypeCompareDirectly(env: Runtime, a: Value, b: Value)
    requires (a.Bool? && b.Bool?) || (a.Dec? && b.Dec?) || (a.Str? && b.Str?)
    ensures a.Bool? ==> ConversionOrder(env, a, b) == Ok(BoolCompare(a.b, b.b))
    ensures a.Dec? ==> ConversionOrder(env, a, b) == Ok(RealCompare(a.d, b.d))
    ensures a.Str? ==> ConversionOrder(env, a, b) == Ok(env.cultureCompare(a.s, b.s))
  {
  }

  /** The left-side quick compare does not apply (`a` is not IComparable, or
      its type is not assignable from b's), `b` is IComparable and `a`'s
      type is assignable to it: b's order is negated, with C#'s unchecked
      negation (int.MinValue stays put). Whether a type is IComparable depends
      on the type alone, so here the runtime types differ, and an exception
      from `b.CompareTo(a)` reaches the catch rule's -1. */
  lemma RightComparableIsNegated(env: Runtime, a: Value, b: Value)
    requires !a.Null? && !b.Null?
    requires !(IsComparable(env, a) && IsAssignableFrom(env, TypeOf(a), TypeOf(b)))
    requires IsComparable(env, b) && IsAssignableFrom(env, TypeOf(b), TypeOf(a))
    ensures CompareTo(env, b, a).Ok? ==>
      ConversionOrder(env, a, b) == Ok(Neg32(CompareTo(env, b, a).value))
    ensures CompareTo(env, b, a).Err? ==> ConversionOrder(env, a, b) == Ok(-1)
  {
  }

  /** The catch rule is not antisymmetric: a string and an object that is
      neither IComparable nor convertible to string each order before the
      other. */
  lemma ObjectAndTextEachOrderFirst(c: Comparer, s: string, name: string, h: nat)
    requires c.Valid() && c.HooksAreDefault()
    requires !IsDecimalString(s)
    requires c.env.hostToString(Host(name, h)).Ok? && !IsDecimalString(c.env.hostToString(Host(name, h)).value)
    requires !c.env.hostComparable(HostType(name))
    requires c.env.changeType(Host(name, h), StringType).Err?
    ensures Order(c, Str(s), Host(name, h)) == Ok(Some(-1))
    ensures Order(c, Host(name, h), Str(s)) == Ok(Some(-1))
  {
  }

  /** A ToString that throws while IsDecimal converts an operand is thrown out
      of CompareInternal (it runs before the try block), left operand first;
      Compare then rethrows it or, suppressing errors, answers indeterminate. */
  lemma StringFormFailureIsThrown(c: Comparer, a: Value, b: Value, e: Exc)
    requires c.Valid() && c.custom(a, b).None?
    requires !a.Null? && !b.Null? && !a.Bool? && !b.Bool? && !(a.List? && b.List?)
    requires ToStr(c.env, c.penetrate(a)) == Err(e)
    ensures InternalOrder(c, a, b) == Err(e)
    ensures c.nullComparison == MinValue && c.penetrate(a) == a && c.penetrate(b) == b ==>
      Order(c, a, b) == if c.suppressErrors then Ok(None) else Err(e)
  {
  }

  /** Neither side IComparable: their string forms are compared inside the
      try block. If ToString throws there, operands of different runtime
      types give -1, and operands of one type have the string forms compared
      again in the catch block, whose exception escapes. */
  lemma ObjectStringFormFailure(env: Runtime, a: Value, b: Value, e: Exc)
    requires !a.Null? && !b.Null? && !IsComparable(env, a) && !IsComparable(env, b)
    requires ToStr(env, a) == Err(e)
    ensures TypeOf(a) != TypeOf(b) ==> ConversionOrder(env, a, b) == Ok(-1)
    ensures TypeOf(a) == TypeOf(b) ==> ConversionOrder(env, a, b) == Err(e)
  {
  }

  /** Compare rethrows an exception of CompareInternal, or answers
      indeterminate when errors are suppressed. */
  lemma ErrorsSuppressedOrRethrown(c: Comparer, a: Value, b: Value, e: Exc)
    requires c.Valid()
    requires c.nullComparison == MinValue || (!c.penetrate(a).Null? && !c.penetrate(b).Null?)
    requires InternalOrder(c, c.penetrate(a), c.penetrate(b)) == Err(e)
    ensures Order(c, a, b) == if c.suppressErrors then Ok(None) else Err(e)
    ensures StrictOrder(c, a, b) == Err(e)
  {
  }

  // ---------------------------------------------------------------------
  // IComparer.Compare against Compare

  /** In MinValue mode the two entry points agree on every ordered result. */
  lemma StrictAgreesWithCompare(c: Comparer, a: Value, b: Value, n: Int32)
    requires c.Valid() && c.nullComparison == MinValue
    ensures StrictOrder(c, a, b) == Ok(n) <==> Order(c, a, b) == Ok(Some(n))
  {
  }

  /** IComparer.Compare throws exactly where CompareInternal is indeterminate. */
  lemma StrictThrowsOnIndeterminate(c: Comparer, a: Value, b: Value)
    requires c.Valid()
    ensures InternalOrder(c, c.penetrate(a), c.penetrate(b)) == Ok(None)
      <==> StrictOrder(c, a, b) == Err(ArgumentException) && !InternalOrder(c, c.penetrate(a), c.penetrate(b)).Err?
  {
  }

  /** IComparer.Compare does not apply the Sql null rule: whatever the mode,
      null against null is 0 there, null against a value -1 and a value
      against null +1, where Compare in Sql mode answers indeterminate. */
  lemma StrictIgnoresSqlNulls(c: Comparer, a: Value, b: Value)
    requires c.Valid()
    requires c.custom(c.penetrate(a), c.penetrate(b)).None?
    ensures var pa, pb := c.penetrate(a), c.penetrate(b);
      && (pa.Null? && pb.Null? ==> StrictOrder(c, a, b) == Ok(0))
      && (pa.Null? && !pb.Null? ==> StrictOrder(c, a, b) == Ok(-1))
      && (!pa.Null? && pb.Null? ==> StrictOrder(c, a, b) == Ok(1))
      && (c.nullComparison == Sql && (pa.Null? || pb.Null?) ==> Order(c, a, b) == Ok(None))
  {
  }
}
