/**
 * The exceptions the user service raises, and the messages it gives them.
 */
module Failures {

  datatype Failure =
    /** The new user is born after the latest admissible birth date. */
    | TooYoung(minUserAge: int)
    /** No record is stored under the id. */
    | NotFound(id: int)
    /** A partial update names a key that is not a patchable field. */
    | InvalidField(key: string)
    /** A partial update gives a patchable field a value of the wrong kind (the cast fails). */
    | ValueTypeMismatch(key: string)
    /** A birth-date search whose lower end is after its upper end. */
    | InvertedRange

  /** Raised as `IllegalArgumentException` (every failure except the failed cast). */
  predicate IsIllegalArgument(f: Failure) {
    !f.ValueTypeMismatch?
  }

  const TooYoungPrefix := "User must be at least "
  const TooYoungSuffix := " years old."
  const NotFoundPrefix := "User not found with id: "
  const InvalidFieldPrefix := "Invalid field: "
  const InvertedRangeText := "From date must be before To date."

  /** The decimal digits of a natural number, most significant first. */
  function Digits(n: nat): (r: string)
    ensures |r| >= 1
    ensures forall i :: 0 <= i < |r| ==> '0' <= r[i] <= '9'
    ensures n < 10 <==> |r| == 1
  {
    var d := ['0' + (n % 10) as char];
    if n < 10 then d else Digits(n / 10) + d
  }

  /** Java's decimal rendering of an integer in string concatenation. */
  function Decimal(n: int): (r: string)
    ensures |r| >= 1
    ensures r[0] == '-' <==> n < 0
  {
    if n < 0 then "-" + Digits(-n) else Digits(n)
  }

  /**
   * The exception message of an `IllegalArgumentException` failure.  Its
   * opening characters tell the kind of failure, and the part after the fixed
   * prefix carries the age, the id or the key.
   */
  function Message(f: Failure): (r: string)
    requires IsIllegalArgument(f)
    ensures |r| > 5
    ensures f.TooYoung? ==> r[0] == 'U' && r[5] == 'm'
    ensures f.NotFound? ==> r[0] == 'U' && r[5] == 'n'
    ensures f.InvalidField? ==> r[0] == 'I'
    ensures f.InvertedRange? ==> r[0] == 'F'
    ensures f.TooYoung? ==>
      && |TooYoungPrefix| + |TooYoungSuffix| < |r|
      && r[|TooYoungPrefix|..|r| - |TooYoungSuffix|] == Decimal(f.minUserAge)
    ensures f.NotFound? ==> |NotFoundPrefix| < |r| && r[|NotFoundPrefix|..] == Decimal(f.id)
    ensures f.InvalidField? ==> |InvalidFieldPrefix| <= |r| && r[|InvalidFieldPrefix|..] == f.key
  {
    match f
    case TooYoung(age) => TooYoungPrefix + Decimal(age) + TooYoungSuffix
    case NotFound(id) => NotFoundPrefix + Decimal(id)
    case InvalidField(key) => InvalidFieldPrefix + key
    case InvertedRange => InvertedRangeText
  }

  /** Different numbers have different digit strings. */
  lemma {:induction false} DigitsInjective(a: nat, b: nat)
    requires Digits(a) == Digits(b)
    ensures a == b
    decreases a
  {
    var da, db := Digits(a), Digits(b);
    if a >= 10 && b >= 10 {
      assert da[..|da| - 1] == Digits(a / 10);
      assert db[..|db| - 1] == Digits(b / 10);
      DigitsInjective(a / 10, b / 10);
      assert da[|da| - 1] == db[|db| - 1];
    }
  }

  /** Different integers have different decimal renderings. */
  lemma DecimalInjective(a: int, b: int)
    requires Decimal(a) == Decimal(b)
    ensures a == b
  {
    if a < 0 {
      assert Decimal(a)[1..] == Digits(-a);
      assert Decimal(b)[1..] == Digits(-b);
      DigitsInjective(-a, -b);
    } else {
      DigitsInjective(a, b);
    }
  }

  /** The message names the failure: equal messages come from equal failures. */
  lemma MessageDeterminesFailure(a: Failure, b: Failure)
    requires IsIllegalArgument(a) && IsIllegalArgument(b)
    requires Message(a) == Message(b)
    ensures a == b
  {
    match a
    case TooYoung(x) => DecimalInjective(x, b.minUserAge);
    case NotFound(x) => DecimalInjective(x, b.id);
    case InvalidField(k) =>
    case InvertedRange =>
  }
}
