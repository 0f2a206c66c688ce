/** The loosely typed value universe the comparer works on, and the 32-bit
    integers its results live in. */
module Values {
  import opened Wrappers

  /** C# `int`: every comparison result is one. */
  const INT32_MIN: int := -0x8000_0000
  const INT32_MAX: int := 0x7FFF_FFFF
  type Int32 = x: int | INT32_MIN <= x <= INT32_MAX

  /** Unchecked C# negation `-x`: the negation of int.MinValue wraps to itself. */
  function Neg32(x: Int32): Int32 {
    if x == INT32_MIN then x else -x
  }

  /** The exceptions the comparer can meet on its way. */
  datatype Exc =
    | FormatException         // Decimal.Parse given text it cannot read
    | OverflowException       // Decimal.Parse given a number out of decimal range
    | InvalidCastException    // Convert.ChangeType between unrelated types
    | ArgumentException       // CompareTo given an object of another type; "Cannot compare"
    | HostException(name: string)  // anything a host type's own code throws

  /** A value or the exception that was thrown instead. */
  type Outcome<T> = Result<T, Exc>

  /** The scale System.Decimal keeps beside its value: the number of digits
      after the point, 0 to 28. 1.0m and 1.00m are equal numbers of scale 1
      and 2, and their string forms ("1.0", "1.00") differ. */
  type DecimalScale = s: nat | s <= 28

  /** A runtime value:
      - `Dec` is System.Decimal (the language's number type): its value and
        its scale;
      - `List` is any object implementing IList (arrays, List<object>), known
        by its runtime type name, an identity handle and its elements;
      - `Wrapped` is a LambdaParameterWrapper around its `.Value`;
      - `Host` is any other object, known only by its runtime type name and an
        identity handle (int, double, DateTime, TimeSpan, user classes). */
  datatype Value =
    | Null
    | Bool(b: bool)
    | Dec(d: real, scale: DecimalScale)
    | Str(s: string)
    | List(typeName: string, handle: nat, items: seq<Value>)
    | Wrapped(inner: Value)
    | Host(typeName: string, handle: nat)

  /** The runtime type `GetType()` reports for a non-null value. */
  datatype TypeTag =
    | BooleanType
    | DecimalType
    | StringType
    | ListType(listName: string)
    | WrapperType
    | HostType(name: string)

  function TypeOf(v: Value): TypeTag
    requires !v.Null?
  {
    match v
    case Bool(_) => BooleanType
    case Dec(_, _) => DecimalType
    case Str(_) => StringType
    case List(t, _, _) => ListType(t)
    case Wrapped(_) => WrapperType
    case Host(t, _) => HostType(t)
  }

  /** Boolean, Decimal and String: the types whose behaviour the framework
      fixes. */
  predicate IsBuiltin(v: Value) {
    v.Bool? || v.Dec? || v.Str?
  }

  /** Size of a value, counting nested list elements and wrapped values; the
      measure that bounds the comparer's recursion into lists. */
  function Size(v: Value): nat
    decreases v
  {
    match v
    case List(_, _, items) => 1 + SizeOfAll(items)
    case Wrapped(inner) => 1 + Size(inner)
    case _ => 1
  }

  function SizeOfAll(s: seq<Value>): nat
    decreases s
  {
    if s == [] then 0 else Size(s[0]) + SizeOfAll(s[1..])
  }

  /** Every element of a list is smaller than the list. */
  lemma {:induction false} ElementSmaller(s: seq<Value>, i: nat)
    requires i < |s|
    ensures Size(s[i]) < 1 + SizeOfAll(s)
  {
    ElementWithin(s, i);
  }

  lemma {:induction false} ElementWithin(s: seq<Value>, i: nat)
    requires i < |s|
    ensures Size(s[i]) <= SizeOfAll(s)
  {
    if i > 0 {
      ElementWithin(s[1..], i - 1);
      assert s[1..][i - 1] == s[i];
    }
  }
}
