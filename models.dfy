/**
 * The stored entity of the account service (API/Models/User.cs) and the
 * value types it is built from.
 */
module Models {
  import opened Wrappers

  /** The opaque primary key (`System.Guid`). */
  type Guid = int

  /**
   * A point in time. Only the calendar fields the controller reads (Year and
   * Month) and what is needed to order creation times are kept; no calendar
   * arithmetic is done on it.
   */
  datatype DateTime = DateTime(year: int, month: int, day: int, timeOfDay: int)

  /** The chronological order of two points in time (`a <= b`). */
  predicate AtOrBefore(a: DateTime, b: DateTime)
  {
    a.year < b.year || (a.year == b.year &&
    (a.month < b.month || (a.month == b.month &&
    (a.day < b.day || (a.day == b.day && a.timeOfDay <= b.timeOfDay)))))
  }

  lemma AtOrBeforeTotal(a: DateTime, b: DateTime)
    ensures AtOrBefore(a, b) || AtOrBefore(b, a)
  {
  }

  /**
   * The gender enumeration is stored as its underlying integer, because the
   * profile update casts any code in 0..3 to it (User.cs:13 names 0..2).
   */
  const Male: int := 0
  const Female: int := 1
  const Unknown: int := 2

  /** `Enum.ToString()`: the member name, or the decimal digits of an unnamed value. */
  function GenderText(g: int): (r: string)
    ensures g == Male ==> r == "Male"
    ensures g == Female ==> r == "Female"
    ensures g == Unknown ==> r == "Unknown"
    ensures g > Unknown ==> IsDecimal(r) && DecimalValue(r) == g
    ensures g < 0 ==> |r| > 1 && r[0] == '-' && IsDecimal(r[1..]) && DecimalValue(r[1..]) == -g
  {
    if g == Male then "Male"
    else if g == Female then "Female"
    else if g == Unknown then "Unknown"
    else if g < 0 then
      var digits := NaturalText(-g);
      assert ("-" + digits)[1..] == digits;
      "-" + digits
    else NaturalText(g)
  }

  predicate IsDigit(c: char)
  {
    '0' <= c <= '9'
  }

  /** Digits only, at least one, and no leading zero unless the number is 0. */
  predicate IsDecimal(s: string)
  {
    |s| > 0 && (forall i | 0 <= i < |s| :: IsDigit(s[i])) && (s[0] == '0' ==> |s| == 1)
  }

  /** The number a string of decimal digits denotes, most significant first. */
  function DecimalValue(s: string): int
    decreases |s|
  {
    if |s| == 0 then 0
    else DecimalValue(s[..|s| - 1]) * 10 + (s[|s| - 1] as int - '0' as int)
  }

  /** Decimal digits of a natural number, most significant first. */
  function NaturalText(n: nat): (r: string)
    ensures IsDecimal(r) && DecimalValue(r) == n
    ensures n > 0 ==> r[0] != '0'
    decreases n
  {
    if n < 10 then
      var r := [('0' as int + n) as char];
      assert DecimalValue(r[..0]) == 0;
      r
    else
      var high := NaturalText(n / 10);
      var r := high + [('0' as int + n % 10) as char];
      assert r[..|r| - 1] == high;
      r
  }

  /** One row of the Users table. */
  datatype User = User(
    guid: Guid,
    login: string,
    password: string,
    name: string,
    gender: int,
    birthday: Option<DateTime>,
    admin: bool,
    createdOn: DateTime,
    createdBy: string,
    modifiedOn: DateTime,
    modifiedBy: string,
    revokedOn: Option<DateTime>,
    revokedBy: Option<string>)
}
