/**
 * The Min validation attribute of ValidationAttributes/MinAttribute.cs.
 * The attribute holds a bound, given as any object or built as a DateTime
 * from its components; IsValid throws when the bound is not comparable,
 * rejects null and values of another runtime type, and otherwise accepts a
 * value exactly when the bound compares at most equal to it.
 */
module Validation {
  import opened Wrappers
  import opened Primitives

  // ---------------------------------------------------------------------------
  // DateTime, as its constructor computes Ticks
  // ---------------------------------------------------------------------------

  const TicksPerMillisecond: int := 10_000
  const TicksPerSecond: int := 10_000_000
  const TicksPerMinute: int := 600_000_000
  const TicksPerHour: int := 36_000_000_000
  const TicksPerDay: int := 864_000_000_000

  /** The components passed to new DateTime(year, month, day, hour, minute, second, millisecond). */
  datatype DateParts = DateParts(year: int, month: int, day: int, hour: int, minute: int, second: int, millisecond: int)

  predicate IsLeapYear(year: int)
  {
    year % 4 == 0 && (year % 100 != 0 || year % 400 == 0)
  }

  /** Days in month m (1 to 12) of a leap or common year. */
  function MonthLength(leap: bool, m: int): (n: int)
    requires 1 <= m <= 12
    ensures 28 <= n <= 31
  {
    if m == 2 then (if leap then 29 else 28)
    else if m == 4 || m == 6 || m == 9 || m == 11 then 30
    else 31
  }

  /** The runtime's DaysToMonth365/DaysToMonth366 tables: days before month m + 1. */
  function DaysToMonth(leap: bool, m: int): (n: int)
    requires 0 <= m <= 12
    ensures n >= 0
  {
    if m == 0 then 0 else DaysToMonth(leap, m - 1) + MonthLength(leap, m)
  }

  function DaysInYear(year: int): int
  {
    if IsLeapYear(year) then 366 else 365
  }

  /** Days from 0001-01-01 to the first day of year x + 1. */
  function DaysBeforeYear(x: int): int
  {
    x * 365 + x / 4 - x / 100 + x / 400
  }

  /** The ranges the DateTime constructor accepts (otherwise ArgumentOutOfRangeException). */
  predicate ValidParts(p: DateParts)
  {
    && 1 <= p.year <= 9999
    && 1 <= p.month <= 12
    && 1 <= p.day <= MonthLength(IsLeapYear(p.year), p.month)
    && 0 <= p.hour < 24 && 0 <= p.minute < 60 && 0 <= p.second < 60
    && 0 <= p.millisecond < 1000
  }

  /** Days from 0001-01-01 to the date (DateToTicks without the factor). */
  function DayNumber(p: DateParts): int
    requires ValidParts(p)
  {
    DaysBeforeYear(p.year - 1) + DaysToMonth(IsLeapYear(p.year), p.month - 1) + p.day - 1
  }

  /** TimeToTicks(hour, minute, second) + millisecond * TicksPerMillisecond. */
  function TimeTicks(p: DateParts): (t: int)
    requires ValidParts(p)
    ensures 0 <= t < TicksPerDay
  {
    p.hour * TicksPerHour + p.minute * TicksPerMinute + p.second * TicksPerSecond + p.millisecond * TicksPerMillisecond
  }

  /** DateTime.Ticks of new DateTime(year, month, day, hour, minute, second, millisecond). */
  function Ticks(p: DateParts): int
    requires ValidParts(p)
  {
    DayNumber(p) * TicksPerDay + TimeTicks(p)
  }

  /** Strict chronological order of the components, year first. */
  predicate ChronoBefore(a: DateParts, b: DateParts)
  {
    || a.year < b.year
    || (a.year == b.year && a.month < b.month)
    || (a.year == b.year && a.month == b.month && a.day < b.day)
    || (a.year == b.year && a.month == b.month && a.day == b.day && a.hour < b.hour)
    || (a.year == b.year && a.month == b.month && a.day == b.day && a.hour == b.hour && a.minute < b.minute)
    || (a.year == b.year && a.month == b.month && a.day == b.day && a.hour == b.hour && a.minute == b.minute
        && a.second < b.second)
    || (a.year == b.year && a.month == b.month && a.day == b.day && a.hour == b.hour && a.minute == b.minute
        && a.second == b.second && a.millisecond < b.millisecond)
  }

  /** A year has 366 days exactly when it is a leap year. */
  lemma YearLength(year: int)
    requires year >= 1
    ensures DaysBeforeYear(year) - DaysBeforeYear(year - 1) == DaysInYear(year)
  {
    var x := year - 1;
    Quarter(x);
    Century(x);
    QuadCentury(x);
    MultiplesNest(year);
  }

  /** A multiple of 400 is one of 100, and a multiple of 100 is one of 4. */
  lemma MultiplesNest(y: int)
    ensures y % 400 == 0 ==> y % 100 == 0
    ensures y % 100 == 0 ==> y % 4 == 0
  {
    if y % 400 == 0 {
      var q := y / 400;
      assert y == 400 * q == 100 * (4 * q);
    }
    if y % 100 == 0 {
      var q := y / 100;
      assert y == 100 * q == 4 * (25 * q);
    }
  }

  /** Each step of x / 4, x / 100 and x / 400 gains one exactly at a multiple. */
  lemma Quarter(x: int)
    ensures (x + 1) / 4 - x / 4 == if (x + 1) % 4 == 0 then 1 else 0
  {
  }

  lemma Century(x: int)
    ensures (x + 1) / 100 - x / 100 == if (x + 1) % 100 == 0 then 1 else 0
  {
  }

  lemma QuadCentury(x: int)
    ensures (x + 1) / 400 - x / 400 == if (x + 1) % 400 == 0 then 1 else 0
  {
  }

  /** Later years start later. */
  lemma {:induction false} YearStartMonotone(y: int, z: int)
    requires 1 <= y <= z
    ensures DaysBeforeYear(y - 1) + DaysInYear(y) <= DaysBeforeYear(z)
    decreases z - y
  {
    YearLength(z);
    if y < z {
      YearStartMonotone(y, z - 1);
    }
  }

  /** Later months start later, and a year's months fill exactly its days. */
  lemma {:induction false} MonthStartMonotone(leap: bool, m: int, k: int)
    requires 0 <= m <= k <= 12
    ensures DaysToMonth(leap, m) <= DaysToMonth(leap, k)
    decreases k - m
  {
    if m < k {
      MonthStartMonotone(leap, m, k - 1);
    }
  }

  lemma YearOfMonths(leap: bool)
    ensures DaysToMonth(leap, 12) == if leap then 366 else 365
  {
    var feb := if leap then 29 else 28;
    assert DaysToMonth(leap, 1) == 31;
    assert DaysToMonth(leap, 2) == 31 + feb;
    assert DaysToMonth(leap, 3) == 62 + feb;
    assert DaysToMonth(leap, 4) == 92 + feb;
    assert DaysToMonth(leap, 5) == 123 + feb;
    assert DaysToMonth(leap, 6) == 153 + feb;
    assert DaysToMonth(leap, 7) == 184 + feb;
    assert DaysToMonth(leap, 8) == 215 + feb;
    assert DaysToMonth(leap, 9) == 245 + feb;
    assert DaysToMonth(leap, 10) == 276 + feb;
    assert DaysToMonth(leap, 11) == 306 + feb;
  }

  /** The days before a date's month plus its day stay within the days before the next month. */
  lemma WithinMonth(p: DateParts)
    requires ValidParts(p)
    ensures DaysToMonth(IsLeapYear(p.year), p.month - 1) + p.day - 1 < DaysToMonth(IsLeapYear(p.year), p.month)
  {
  }

  /** A date of an earlier year has a smaller day number. */
  lemma EarlierYear(a: DateParts, b: DateParts)
    requires ValidParts(a) && ValidParts(b) && a.year < b.year
    ensures DayNumber(a) < DayNumber(b)
  {
    var leap := IsLeapYear(a.year);
    WithinMonth(a);
    MonthStartMonotone(leap, a.month, 12);
    YearOfMonths(leap);
    YearStartMonotone(a.year, b.year - 1);
  }

  /** A date of an earlier month of the same year has a smaller day number. */
  lemma EarlierMonth(a: DateParts, b: DateParts)
    requires ValidParts(a) && ValidParts(b) && a.year == b.year && a.month < b.month
    ensures DayNumber(a) < DayNumber(b)
  {
    WithinMonth(a);
    MonthStartMonotone(IsLeapYear(a.year), a.month, b.month - 1);
  }

  /** Dates in chronological order have increasing day numbers. */
  lemma DayNumberMonotone(a: DateParts, b: DateParts)
    requires ValidParts(a) && ValidParts(b)
    requires a.year < b.year || (a.year == b.year && a.month < b.month) ||
             (a.year == b.year && a.month == b.month && a.day < b.day)
    ensures DayNumber(a) < DayNumber(b)
  {
    if a.year < b.year {
      EarlierYear(a, b);
    } else if a.month < b.month {
      EarlierMonth(a, b);
    }
  }

  /** Lexicographic order of a pair (q, r) with 0 <= r < 60 is the order of q * 60 + r. */
  lemma Sexagesimal(q1: int, r1: int, q2: int, r2: int)
    requires 0 <= r1 < 60 && 0 <= r2 < 60
    ensures (q1 < q2 || (q1 == q2 && r1 < r2)) <==> q1 * 60 + r1 < q2 * 60 + r2
    ensures (q1 == q2 && r1 == r2) <==> q1 * 60 + r1 == q2 * 60 + r2
  {
  }

  /** Lexicographic order of a pair (q, r) with 0 <= r < 1000 is the order of q * 1000 + r. */
  lemma Millesimal(q1: int, r1: int, q2: int, r2: int)
    requires 0 <= r1 < 1000 && 0 <= r2 < 1000
    ensures (q1 < q2 || (q1 == q2 && r1 < r2)) <==> q1 * 1000 + r1 < q2 * 1000 + r2
    ensures (q1 == q2 && r1 == r2) <==> q1 * 1000 + r1 == q2 * 1000 + r2
  {
  }

  /** On one day, the time of day orders the ticks. */
  lemma TimeTicksMonotone(a: DateParts, b: DateParts)
    requires ValidParts(a) && ValidParts(b)
    requires a.year == b.year && a.month == b.month && a.day == b.day
    ensures ChronoBefore(a, b) <==> TimeTicks(a) < TimeTicks(b)
    ensures a == b <==> TimeTicks(a) == TimeTicks(b)
  {
    var ma, mb := a.hour * 60 + a.minute, b.hour * 60 + b.minute;
    Sexagesimal(a.hour, a.minute, b.hour, b.minute);
    var sa, sb := ma * 60 + a.second, mb * 60 + b.second;
    Sexagesimal(ma, a.second, mb, b.second);
    var xa, xb := sa * 1000 + a.millisecond, sb * 1000 + b.millisecond;
    Millesimal(sa, a.millisecond, sb, b.millisecond);
    assert TimeTicks(a) == xa * TicksPerMillisecond;
    assert TimeTicks(b) == xb * TicksPerMillisecond;
  }

  /** On different days, the day numbers order the ticks. */
  lemma DayOrdersTicks(a: DateParts, b: DateParts)
    requires ValidParts(a) && ValidParts(b)
    requires DayNumber(a) < DayNumber(b)
    ensures Ticks(a) < Ticks(b)
  {
    assert Ticks(a) < (DayNumber(a) + 1) * TicksPerDay;
    assert (DayNumber(a) + 1) * TicksPerDay <= DayNumber(b) * TicksPerDay;
  }

  /** Ticks follow the chronological order of the components, in both directions. */
  lemma TicksChronological(a: DateParts, b: DateParts)
    requires ValidParts(a) && ValidParts(b)
    ensures ChronoBefore(a, b) <==> Ticks(a) < Ticks(b)
    ensures a == b <==> Ticks(a) == Ticks(b)
  {
    if a.year == b.year && a.month == b.month && a.day == b.day {
      TimeTicksMonotone(a, b);
    } else if a.year < b.year || (a.year == b.year && a.month < b.month) ||
              (a.year == b.year && a.month == b.month && a.day < b.day) {
      DayNumberMonotone(a, b);
      DayOrdersTicks(a, b);
    } else {
      DayNumberMonotone(b, a);
      DayOrdersTicks(b, a);
    }
  }

  // ---------------------------------------------------------------------------
  // Values, their runtime types and CompareTo
  // ---------------------------------------------------------------------------

  /** The objects a bound or a validated value can be: a few IComparable types and one that is not. */
  datatype Value =
    | IntValue(i: Int32)
    | LongValue(l: Int64)
    | BoolValue(b: bool)
    | StringValue(s: string)
    | DateValue(ticks: int)
    | Uncomparable(typeName: string)

  /** GetType(): the runtime type of a value. */
  datatype RuntimeType = Int32Type | Int64Type | BooleanType | StringType | DateTimeType | NamedType(name: string)

  function TypeOf(v: Value): RuntimeType
  {
    match v
    case IntValue(_) => Int32Type
    case LongValue(_) => Int64Type
    case BoolValue(_) => BooleanType
    case StringValue(_) => StringType
    case DateValue(_) => DateTimeType
    case Uncomparable(n) => NamedType(n)
  }

  /** The bound "is IComparable". */
  predicate IsComparable(v: Option<Value>)
  {
    v.Some? && !v.value.Uncomparable?
  }

  function CompareInt(a: int, b: int): int
  {
    if a < b then -1 else if a > b then 1 else 0
  }

  /** Character-by-character comparison of two strings, a prefix first. */
  function CompareOrdinal(a: string, b: string): (r: int)
    ensures -1 <= r <= 1
  {
    if |a| == 0 && |b| == 0 then 0
    else if |a| == 0 then -1
    else if |b| == 0 then 1
    else if a[0] < b[0] then -1
    else if a[0] > b[0] then 1
    else CompareOrdinal(a[1..], b[1..])
  }

  /** min.CompareTo(value) for two values of one comparable runtime type. */
  function CompareTo(a: Value, b: Value): int
    requires TypeOf(a) == TypeOf(b) && !a.Uncomparable?
  {
    match a
    case IntValue(x) => CompareInt(x, b.i)
    case LongValue(x) => CompareInt(x, b.l)
    case BoolValue(x) => CompareInt(if x then 1 else 0, if b.b then 1 else 0)
    case StringValue(x) => CompareOrdinal(x, b.s)
    case DateValue(x) => CompareInt(x, b.ticks)
  }

  lemma {:induction false} OrdinalReflexive(a: string)
    ensures CompareOrdinal(a, a) == 0
  {
    if |a| > 0 {
      OrdinalReflexive(a[1..]);
    }
  }

  lemma {:induction false} OrdinalAntisymmetric(a: string, b: string)
    ensures CompareOrdinal(a, b) == -CompareOrdinal(b, a)
    ensures CompareOrdinal(a, b) == 0 <==> a == b
  {
    if |a| > 0 && |b| > 0 {
      OrdinalAntisymmetric(a[1..], b[1..]);
      if a[0] == b[0] && a[1..] == b[1..] {
        assert a == [a[0]] + a[1..] && b == [b[0]] + b[1..];
      }
    }
  }

  lemma {:induction false} OrdinalTransitive(a: string, b: string, c: string)
    requires CompareOrdinal(a, b) <= 0 && CompareOrdinal(b, c) <= 0
    ensures CompareOrdinal(a, c) <= 0
  {
    if |a| > 0 && |b| > 0 && |c| > 0 && a[0] == b[0] == c[0] {
      OrdinalTransitive(a[1..], b[1..], c[1..]);
    }
  }

  /** CompareTo is a total order on each comparable runtime type. */
  lemma CompareToOrder(a: Value, b: Value, c: Value)
    requires TypeOf(a) == TypeOf(b) == TypeOf(c) && !a.Uncomparable?
    ensures CompareTo(a, a) == 0
    ensures CompareTo(a, b) == -CompareTo(b, a)
    ensures CompareTo(a, b) == 0 <==> a == b
    ensures CompareTo(a, b) <= 0 && CompareTo(b, c) <= 0 ==> CompareTo(a, c) <= 0
  {
    if a.StringValue? {
      OrdinalReflexive(a.s);
      OrdinalAntisymmetric(a.s, b.s);
      if CompareTo(a, b) <= 0 && CompareTo(b, c) <= 0 {
        OrdinalTransitive(a.s, b.s, c.s);
      }
    }
  }

  // ---------------------------------------------------------------------------
  // The attribute
  // ---------------------------------------------------------------------------

  /** The exceptions of the two constructors and of IsValid. */
  datatype ValidationError =
    | ArgumentOutOfRange   // from the DateTime constructor
    | NotComparable        // ArgumentException: MinValue must implement IComparable

  /** MinAttribute; the datatype constructor is MinAttribute(object minValue), with null as None. */
  datatype MinAttribute = MinAttribute(minValue: Option<Value>)
  {
    /** MinAttribute(year, month, day, hour = 0, minute = 0, second = 0, millisecond = 0). */
    static function FromDate(year: Int32, month: Int32, day: Int32,
                             hour: Int32 := 0, minute: Int32 := 0, second: Int32 := 0, millisecond: Int32 := 0)
      : (r: Result<MinAttribute, ValidationError>)
      ensures var p := DateParts(year, month, day, hour, minute, second, millisecond);
              (r.Ok? <==> ValidParts(p)) &&
              (r.Ok? ==> r.value.minValue == Some(DateValue(Ticks(p)))) &&
              (r.Err? ==> r.error == ArgumentOutOfRange)
    {
      var p := DateParts(year, month, day, hour, minute, second, millisecond);
      if ValidParts(p) then Ok(MinAttribute(Some(DateValue(Ticks(p))))) else Err(ArgumentOutOfRange)
    }

    /** IsValid(value): the comparable check first, then null and the runtime type, then CompareTo. */
    function IsValid(value: Option<Value>): (r: Result<bool, ValidationError>)
      ensures !IsComparable(minValue) <==> r == Err(NotComparable)
      ensures IsComparable(minValue) ==> r.Ok?
      ensures IsComparable(minValue) ==>
                (r == Ok(true) <==>
                   value.Some? && TypeOf(value.value) == TypeOf(minValue.value) &&
                   CompareTo(minValue.value, value.value) <= 0)
    {
      if !IsComparable(minValue) then Err(NotComparable)
      else if value.None? || TypeOf(value.value) != TypeOf(minValue.value) then Ok(false)
      else Ok(CompareTo(minValue.value, value.value) <= 0)
    }
  }

  /** The bound itself passes. */
  lemma BoundaryPasses(attr: MinAttribute)
    requires IsComparable(attr.minValue)
    ensures attr.IsValid(attr.minValue) == Ok(true)
  {
    CompareToOrder(attr.minValue.value, attr.minValue.value, attr.minValue.value);
  }

  /** Null and values of another runtime type fail, without any numeric widening. */
  lemma NullAndOtherTypesFail(attr: MinAttribute, value: Option<Value>)
    requires IsComparable(attr.minValue)
    requires value.None? || TypeOf(value.value) != TypeOf(attr.minValue.value)
    ensures attr.IsValid(value) == Ok(false)
  {
  }

  /** Passing is upward closed: a larger value of the same type passes too. */
  lemma Monotone(attr: MinAttribute, v: Value, w: Value)
    requires attr.IsValid(Some(v)) == Ok(true)
    requires TypeOf(w) == TypeOf(v) && CompareTo(v, w) <= 0
    ensures attr.IsValid(Some(w)) == Ok(true)
  {
    CompareToOrder(attr.minValue.value, v, w);
  }

  /** Exactly the values below the bound fail, among those of the bound's type. */
  lemma FailsBelowBound(attr: MinAttribute, v: Value)
    requires IsComparable(attr.minValue) && TypeOf(v) == TypeOf(attr.minValue.value)
    ensures attr.IsValid(Some(v)) == Ok(false) <==> CompareTo(v, attr.minValue.value) < 0
  {
    CompareToOrder(attr.minValue.value, v, v);
  }

  /** A date bound accepts exactly the dates from the bound on, in calendar order. */
  lemma DateBound(bound: DateParts, date: DateParts)
    requires ValidParts(bound) && ValidParts(date)
    ensures var attr := MinAttribute.FromDate(bound.year, bound.month, bound.day,
                                              bound.hour, bound.minute, bound.second, bound.millisecond);
            attr.Ok? &&
            (attr.value.IsValid(Some(DateValue(Ticks(date)))) == Ok(true) <==> !ChronoBefore(date, bound))
  {
    TicksChronological(date, bound);
  }

  /** An int bound of 10: 10 and 11 pass, 9, the long 10 and the string "10" fail. */
  lemma IntBoundExamples()
    ensures MinAttribute(Some(IntValue(10))).IsValid(Some(IntValue(10))) == Ok(true)
    ensures MinAttribute(Some(IntValue(10))).IsValid(Some(IntValue(11))) == Ok(true)
    ensures MinAttribute(Some(IntValue(10))).IsValid(Some(IntValue(9))) == Ok(false)
    ensures MinAttribute(Some(IntValue(10))).IsValid(Some(LongValue(10))) == Ok(false)
    ensures MinAttribute(Some(IntValue(10))).IsValid(Some(StringValue("10"))) == Ok(false)
    ensures MinAttribute(None).IsValid(None) == Err(NotComparable)
  {
  }
}
