# NReco LambdaParser value comparer, modelled in Dafny

The expression language of NReco LambdaParser is loosely typed. Its relational and
equality operators rely on `ValueComparer`, an ordering over mixed values: nulls,
bools, decimals, strings, lists and arbitrary host objects. Its exact-equals
operators rely on `ExtendedMethods.ExactEquals` instead, which does no coercion.
This project models both and proves what they promise.

Files:

- `wrappers.dfy` (`Wrappers`): `Option` (C#'s `int?`) and `Result` (a value or a thrown exception).
- `values.dfy` (`Values`): the value universe.
  - `Null | Bool | Dec | Str | List | Wrapped | Host`. `Dec` is a System.Decimal:
    its value and its scale (1.0m and 1.00m are equal numbers with different
    text). `List` is any `IList` (an array, a `List<object>`), known by its runtime
    type name, an identity handle and its elements. `Wrapped` is a
    `LambdaParameterWrapper`; `Host` is any other object, known by its runtime type
    name and an identity handle.
  - `Int32`, and `Neg32` for C#'s unchecked negation.
  - The exceptions the comparer can meet.
  - A size measure that bounds the recursion into lists.
- `platform.dfy` (`Platform`): the .NET behaviour the core calls.
  - Fixed where the framework fixes it: `Convert.ToString` of null, bool and string;
    `CompareTo` and `Equals` of Boolean, Decimal and String (a decimal's scale does
    not count); `IsAssignableFrom` for these sealed types.
  - Otherwise a parameter, the function fields of `Runtime`: culture-dependent
    formatting, parsing and string order, and host types' `ToString`, `IComparable`,
    `IsAssignableFrom`, `Convert.ChangeType` and `Equals`. A host type's
    `ToString`, `CompareTo`, `Equals` and a conversion may throw; the exception
    is carried through as the C# would throw it.
- `decimal_pattern.dfy` (`DecimalPattern`): `IsDecimalString`. It is a recognizer for
  the .NET pattern `^[+-]?(\d+.)?\d+$`, proved to accept exactly the pattern's language.
  That language is written out declaratively. These regex details are kept:
  - the `.` is unescaped, so it matches any single UTF-16 code unit except `'\n'`.
    A Dafny character is a Unicode scalar value, so a character outside the Basic
    Multilingual Plane (two code units in .NET) never matches the `.`;
  - `$` also matches just before a final `'\n'`;
  - `\d` is an ASCII digit here.
- `value_comparer.dfy` (`ValueComparer`): the comparer.
  - The configuration: `NullComparison`, `SuppressErrors`, and the overridable hooks
    `Penetrate` and `CustomCompareInternalObject`.
  - Specification functions, one per step of the algorithm: `Order`,
    `InternalOrder`, `ElementsOrder`, `ScalarOrder`, `TryCompare`,
    `ConversionOrder`, `StrictOrder`.
  - The methods `Compare`, `CompareInternal` and `CompareStrict`. These follow the
    C# statement by statement: the operands are reassigned during bool coercion,
    and a `for` loop over the list elements returns early. The `try` block
    (ValueComparer.cs:159-193) is the single call of `TryCompare`; its `catch`
    follows as statements. Each method is proved to compute its specification
    function.
- `comparer_properties.dfy` (`ComparerProperties`): lemmas about the comparer.
  They cover null modes, the custom hook, list order, bool coercion, the
  decimal-looking rules, the catch rule, error suppression, and how
  `IComparer.Compare` relates to `Compare`.
- `extended_methods.dfy` (`ExtendedMethods`): `ExactEquals` and `NotExactEquals`.

Points of the code's rule order that the model keeps, and that a reader might
not expect:

- The custom hook runs before the null rules.
- Decimal parsing, and the `Convert.ToString` calls of the decimal-looking rules,
  happen outside the `try` block. A parse failure or a throwing `ToString` is
  therefore thrown: it does not reach the "different types give -1" catch rule.
- The catch block compares the string forms again for operands of one type, so a
  `ToString` that throws there leaves `CompareInternal`.
- The catch rule answers -1 in both argument orders. `ObjectAndTextEachOrderFirst`
  shows this, so the order is not antisymmetric.
- `IComparer.Compare` skips the Sql null rule at the top level. List elements are
  compared through the public `Compare`, though, so the rule still applies to them.

## Model

| member | source | states |
|---|---|---|
| `ValueComparer.Compare` | src/NReco.LambdaParser/Linq/ValueComparer.cs:79-92 | The public nullable Compare. It penetrates both operands. In Sql mode a null gives indeterminate. Otherwise it gives CompareInternal's result, or indeterminate in place of an exception when errors are suppressed. Proved equal to `Order`. |
| `ValueComparer.CompareInternal` | src/NReco.LambdaParser/Linq/ValueComparer.cs:110-203 | The internal comparison as the code runs it: custom hook, null rules, length-then-elements list loop with early return, bool coercion by reassignment, decimal-looking rules, try block with catch. Proved equal to `InternalOrder`. |
| `ValueComparer.CompareStrict` | src/NReco.LambdaParser/Linq/ValueComparer.cs:66-73 | IComparer.Compare: penetrate, then CompareInternal with no Sql rule and no suppression. An indeterminate result becomes ArgumentException. Proved equal to `StrictOrder`. |
| `ValueComparer.Default` | src/NReco.LambdaParser/Linq/ValueComparer.cs:53-56 | A new comparer uses MinValue, does not suppress errors, has neither hook overridden, and keeps the runtime it is given. |
| `ValueComparer.BoolCoercion` | src/NReco.LambdaParser/Linq/ValueComparer.cs:137-144 | The two sequential reassignments, read as a whole: the non-bool side is coerced exactly when one side is a bool, on either side, and otherwise nothing changes. |
| `ValueComparer.TrueLike` | src/NReco.LambdaParser/Linq/ValueComparer.cs:139-143 | What a non-bool becomes against a bool: true only for the exact string "1" and for a decimal equal to one, whatever its scale. Every other value, other strings and non-decimal numbers included, becomes false. |
| `ValueComparer.IsDecimal` | src/NReco.LambdaParser/Linq/ValueComparer.cs:227-232 | The penetrated value's string form is tested against the pattern. An exception from its ToString is thrown. A bool, decimal or string never throws here, and null is never decimal-looking. |
| `ValueComparer.CompareInternalObject` | src/NReco.LambdaParser/Linq/ValueComparer.cs:211-214 | The string forms are compared in the culture, the left one converted first. A ToString exception is thrown, the left one first. Two strings compare as themselves. Built-in and null operands never throw. |
| `ValueComparer.TryCompare` | src/NReco.LambdaParser/Linq/ValueComparer.cs:159-193 | The left quick compare applies when the left side is IComparable and its type is assignable from the right's. Failing that, when the right side is IComparable and its type is assignable from the left's, the result is the right side's CompareTo against the left, negated with 32-bit wrap-around, its exception being thrown. Otherwise, when the right side is not an IComparable whose type is assignable from the left's, an IComparable left side has the right side converted to its type by ChangeType and compared with it, a conversion failure being thrown; with only the right side IComparable, the left side is converted to the right's type, compared from the right side and negated. With neither side IComparable, nothing is converted and the string forms are compared. Two built-in values of one type never throw. |
| `ValueComparer.ConversionOrder` | src/NReco.LambdaParser/Linq/ValueComparer.cs:159-202 | A result of the try block is kept. An exception gives -1 for operands of different runtime types, and the string-form comparison for operands of one type. An exception can leave only for operands of one type, from the catch block's own string comparison. |
| `DecimalPattern.IsDecimalStringCorrect` | src/NReco.LambdaParser/Linq/ValueComparer.cs:234-238 | IsDecimalString accepts a string iff it matches an optional sign, then an optional (digits, one character that is a single UTF-16 code unit other than newline), then digits. A string that matches once its final newline is removed is accepted too. |
| `DecimalPattern.IsDecimalString` | src/NReco.LambdaParser/Linq/ValueComparer.cs:234-238 | A non-empty string of digits is accepted. Every accepted string starts with a sign or a digit. |
| `DecimalPattern.DotIsOneCodeUnit` | src/NReco.LambdaParser/Linq/ValueComparer.cs:236 | "1a5" is decimal-looking, because the dot is unescaped. "1" followed by a character outside the Basic Multilingual Plane and then "5" is not. |
| `ComparerProperties.SqlNullIsIndeterminate` | src/NReco.LambdaParser/Linq/ValueComparer.cs:83-85 | Sql mode: if either penetrated operand is null, null against null included, Compare is indeterminate. |
| `ComparerProperties.MinValueNullOrdering` | src/NReco.LambdaParser/Linq/ValueComparer.cs:116-121 | MinValue mode with no custom result: null vs null is 0, null vs non-null is -1, non-null vs null is +1. |
| `ComparerProperties.CustomHookPreempts` | src/NReco.LambdaParser/Linq/ValueComparer.cs:111-115 | A non-null custom result is the answer of IComparer.Compare. It is also Compare's answer unless Compare's Sql null rule applies first. |
| `ComparerProperties.ListLengthOrder` | src/NReco.LambdaParser/Linq/ValueComparer.cs:122-128 | Lists of different lengths: the shorter one is -1 and the longer one is +1. |
| `ComparerProperties.ListOrderIgnoresTypeAndIdentity` | src/NReco.LambdaParser/Linq/ValueComparer.cs:122-135 | Two lists are ordered by their elements alone: lists of other runtime types or identities holding the same elements compare the same way. |
| `ComparerProperties.ElementsZeroIffAllZero` | src/NReco.LambdaParser/Linq/ValueComparer.cs:129-135 | The element loop from index i yields 0 iff every later element pair compares 0. |
| `ComparerProperties.ListsEqualIffElementsEqual` | src/NReco.LambdaParser/Linq/ValueComparer.cs:122-135 | Equal-length lists compare 0 iff every element pair compares 0 under the public Compare. |
| `ComparerProperties.ElementsFirstDifference` | src/NReco.LambdaParser/Linq/ValueComparer.cs:129-133 | The element loop from index i yields the comparison at the first index k >= i whose result is not 0. |
| `ComparerProperties.FirstDifferingElementDecides` | src/NReco.LambdaParser/Linq/ValueComparer.cs:122-133 | For equal-length lists, the first element comparison that is not 0 is the list's result. This holds whether it is an order, indeterminate, or an exception. |
| `ComparerProperties.SqlNullElementIsIndeterminate` | src/NReco.LambdaParser/Linq/ValueComparer.cs:129-132 | Sql mode: a null element after equal prefixes makes the list comparison indeterminate in CompareInternal and Compare, and makes IComparer.Compare throw. |
| `ComparerProperties.DecimalSelfEqual` | src/NReco.LambdaParser/Linq/ValueComparer.cs:145-167 | With default hooks, a decimal compares 0 to itself. The exception is a decimal-looking string form that fails to parse. |
| `ComparerProperties.SingletonDecimalListsEqual` | src/NReco.LambdaParser.Tests/LambdaParserTests.cs:127 | `new[]{ one } == new[] { 1 }`: two one-element lists holding decimal 1 compare 0, whatever their runtime types and identities. |
| `ComparerProperties.DecimalLookingCompareNumerically` | src/NReco.LambdaParser/Linq/ValueComparer.cs:145-150 | Both sides decimal-looking: the parsed string forms are compared numerically. If the left side fails to parse, the result is its exception; otherwise a failure on the right gives the right side's exception. |
| `ComparerProperties.NumericTextsEqual` | src/NReco.LambdaParser/Linq/ValueComparer.cs:145-150 | Default hooks: a decimal-looking string and a decimal-looking value whose string forms parse to the same number compare 0. |
| `ComparerProperties.DecimalLookingAgainstText` | src/NReco.LambdaParser/Linq/ValueComparer.cs:151-158 | A decimal-looking side against a non-decimal-looking string is compared as text, the numeric side by its string form. This holds in either argument order. |
| `ComparerProperties.DecimalAgainstText` | src/NReco.LambdaParser/Linq/ValueComparer.cs:151-154 | Default hooks: a decimal whose text looks decimal, compared with a string that does not, is ordered by that text in the culture. |
| `ComparerProperties.TextAndDecimalCompareNumerically` | src/NReco.LambdaParser/Linq/ValueComparer.cs:145-150 | `"4.00"` vs `4.0` and `4.0` vs `"4.00"` compare 0, given a culture that writes 4.0 as "4.0" and parses both texts to four. |
| `ComparerProperties.IntAndDecimalTextEqual` | src/NReco.LambdaParser.Tests/LambdaParserTests.cs:238-251 | `"1400.00" == a`, where `a` is the int 1400, compares 0. Both sides look decimal, so they are compared as numbers even though their types differ. |
| `ComparerProperties.PageNumberComparedAsText` | src/NReco.LambdaParser.Tests/LambdaParserTests.cs:356-363 | `"2" < "16a"`: "16a" does not look decimal, so the strings are compared as text in the current culture. |
| `ComparerProperties.LetterInPlaceOfDotReachesParse` | src/NReco.LambdaParser/Linq/ValueComparer.cs:145-149 | "1a5" is decimal-looking, because the dot is unescaped. Compared with a decimal, Decimal.Parse fails on it; Compare rethrows the error, or is indeterminate when errors are suppressed. |
| `ComparerProperties.BoolNotDecimalLooking` | src/NReco.LambdaParser/Linq/ValueComparer.cs:227-238 | The string form of a bool ("True"/"False") never looks decimal. |
| `ComparerProperties.BoolMeetsNonBool` | src/NReco.LambdaParser/Linq/ValueComparer.cs:137-144 | A bool against a non-bool compares exactly as the bool against the coerced bool, with the bool on either side. |
| `ComparerProperties.BoolAgainstNonBool` | src/NReco.LambdaParser/Linq/ValueComparer.cs:137-167 | With default hooks, bool x against a non-null non-bool v, on either side, gives the Boolean order of x and (v is "1" or the decimal 1). |
| `ComparerProperties.BoolEquivalenceExamples` | src/NReco.LambdaParser/Linq/ValueComparer.cs:137-144 | `true == 1` (for 1 and for 1.00) and `"1" == true` give 0. `false` vs `"1"` gives -1. `true` vs `"yes"` gives +1. |
| `ComparerProperties.ConversionFailureOrder` | src/NReco.LambdaParser/Linq/ValueComparer.cs:194-202 | An exception in the try block gives -1 for operands of different runtime types. For operands of the same type, the string forms are compared again, and an exception there is the result. |
| `ComparerProperties.SameBuiltinTypeCompareDirectly` | src/NReco.LambdaParser/Linq/ValueComparer.cs:162-167 | Two bools, two decimals or two strings are compared by their own type's CompareTo. |
| `ComparerProperties.RightComparableIsNegated` | src/NReco.LambdaParser/Linq/ValueComparer.cs:169-175 | When the left quick compare does not apply (the left side is not IComparable, or its type is not assignable from the right's) and the right side is IComparable with the left side's type assignable to it, the result is the right side's order, negated with 32-bit wrap-around. If that CompareTo throws, the catch rule gives -1, since such operands always have different runtime types. |
| `ComparerProperties.ObjectAndTextEachOrderFirst` | src/NReco.LambdaParser/Linq/ValueComparer.cs:177-199 | A string and an object that is neither IComparable nor convertible to string each compare -1 against the other. |
| `ComparerProperties.StringFormFailureIsThrown` | src/NReco.LambdaParser/Linq/ValueComparer.cs:145-146 | A ToString that throws while IsDecimal converts the left operand is thrown out of CompareInternal. Compare then rethrows it, or is indeterminate when errors are suppressed. |
| `ComparerProperties.ObjectStringFormFailure` | src/NReco.LambdaParser/Linq/ValueComparer.cs:192-202 | Neither side IComparable and the left ToString throws: operands of different runtime types give -1, and operands of one type throw that exception out of the catch block. |
| `ComparerProperties.ErrorsSuppressedOrRethrown` | src/NReco.LambdaParser/Linq/ValueComparer.cs:87-91 | An exception from CompareInternal becomes indeterminate when errors are suppressed, and is rethrown otherwise. IComparer.Compare always rethrows it. |
| `ComparerProperties.StrictAgreesWithCompare` | src/NReco.LambdaParser/Linq/ValueComparer.cs:66-92 | In MinValue mode, IComparer.Compare returns n iff Compare returns n. |
| `ComparerProperties.StrictThrowsOnIndeterminate` | src/NReco.LambdaParser/Linq/ValueComparer.cs:69-72 | CompareInternal is indeterminate iff it did not throw and IComparer.Compare throws ArgumentException. |
| `ComparerProperties.StrictIgnoresSqlNulls` | src/NReco.LambdaParser/Linq/ValueComparer.cs:66-73 | With no custom result and in either mode, IComparer.Compare gives 0 for null vs null, -1 for null vs a value, and +1 for a value vs null. In Sql mode Compare is indeterminate for each of these. |
| `ExtendedMethods.ExactEquals` | src/NReco.LambdaParser/Linq/ExtendedMethods.cs:12-33 | After unwrapping one wrapper on each side: both null gives true; exactly one null gives false; both set gives the outcome of left.Equals(right), including an exception it throws. |
| `ExtendedMethods.Unwrap` | src/NReco.LambdaParser/Linq/ExtendedMethods.cs:14-23 | A value is left as it is exactly when it is not a wrapper. A wrapper loses exactly one layer. |
| `ExtendedMethods.NotExactEquals` | src/NReco.LambdaParser/Linq/ExtendedMethods.cs:35-38 | True iff exactly one unwrapped side is null, or both are set and Equals answers false. False iff both are null, or Equals answers true. An exception from Equals is thrown. |
| `ExtendedMethods.WrappingIsTransparent` | src/NReco.LambdaParser/Linq/ExtendedMethods.cs:16-23 | Wrapping a non-wrapper value, on either side, does not change ExactEquals. |
| `ExtendedMethods.NoCrossTypeEquality` | src/NReco.LambdaParser/Linq/ExtendedMethods.cs:28-31 | A bool, decimal or string is never exactly equal to a non-null value of another runtime type. |
| `ExtendedMethods.BuiltinExactEqualityIsValueEquality` | src/NReco.LambdaParser/Linq/ExtendedMethods.cs:28-31 | On bools, decimals and strings, ExactEquals is equality of the values. Two decimals are compared as numbers, so their scales do not count. |
| `ExtendedMethods.ExactIsStricterThanCompare` | src/NReco.LambdaParser/Linq/ExtendedMethods.cs:28-31 | `true` and decimal 1 compare 0 under the default comparer, but are not exactly equal. Decimal 1 and "1" are not exactly equal either. |
| `ExtendedMethods.DistinctListsEqualOnlyUnderCompare` | src/NReco.LambdaParser/Linq/ExtendedMethods.cs:28-31 | Two distinct arrays holding decimal 1 compare 0 under the comparer, yet are not exactly equal when Equals is reference equality. |
| `ExtendedMethods.ScaleShowsOnlyInText` | src/NReco.LambdaParser/Linq/ValueComparer.cs:151-154 | 1.0m and 1.00m are exactly equal. Against the non-decimal-looking string "1.0 ", the comparer can still order one below and the other above, because it compares the texts "1.0" and "1.00". |

## Left out

- Culture and format: `Convert.ToString` of decimals and objects, `Decimal.Parse` and
  `string.CompareTo` depend on the current culture. They are parameters of `Runtime`,
  as is the comparer's `FormatProvider` through `Convert.ChangeType`.
- Reflection: `IsAssignableFrom` between host types, whether a host type implements
  `IComparable`, its `CompareTo` and its `Equals` are parameters. Only their fixed
  behaviour on Boolean, Decimal and String is written out.
- Penetrate: the model assumes the hook never makes a value larger (`Comparer.Valid`).
  A hook that grows values without bound can make the C# recurse forever; the model
  does not cover that case.
- Hooks: the hooks are total functions. An exception thrown by an overridden
  `Penetrate` or `CustomCompareInternalObject` is not modelled.
- CompareInternalObject: only its default body, comparing the string forms, is
  modelled. An override in a subclass is not.
- CompareInternal is itself `protected virtual` (ValueComparer.cs:110). Only its own
  body is modelled; a subclass that overrides it is not.
- Self-containing lists: a `List` value is finite, so an array that holds itself
  cannot be written down. The C# recurses forever on such an array (the element
  loop at ValueComparer.cs:129-130); the model does not cover that case.
- `IComparer<object>.Compare` (ValueComparer.cs:75-77) only delegates to
  `IComparer.Compare`, so it is covered by `CompareStrict`.
- The static `Instance` singleton is global state with no logic. Configuration is
  passed explicitly instead.
- Decimal range: a `Dec` holds any real value with a scale of 0 to 28. The 96-bit
  mantissa limit, and the link between the value's digits and its scale, are not
  enforced.
- Repeated calls: `ToString`, `Equals` and the other host members are functions of
  their arguments. A host object whose `ToString` answers differently when the
  comparer calls it a second time is not modelled.
- Unpaired surrogates: strings are sequences of Unicode scalar values, so a .NET
  string holding an unpaired surrogate cannot be written down.
- Unicode digits: `\d` in .NET also matches non-ASCII decimal digits. The recognizer
  accepts ASCII digits only.
- The tokenizer, parser, evaluator, expression cache and `LambdaParameterWrapper`'s
  own members are not part of this model. Only its `.Value` is used, as `Wrapped(inner)`.
