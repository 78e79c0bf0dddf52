/** Interval arithmetic on int64 parts (pkg/util/duration/duration.go). Times are integer
    nanoseconds. */
module Durations {
  import opened GoInts
  import opened Wrappers

  const NANOS_IN_DAY := 86_400_000_000_000
  const DAYS_PER_MONTH := 30
  const NANOS_IN_MONTH := 2_592_000_000_000_000
  const MIN_INT64 := -0x8000_0000_0000_0000

  datatype Duration = Duration(months: int64, days: int64, nanos: int64)

  /** The nanoseconds of a duration at 30 days per month. */
  function Total(d: Duration): int {
    d.months * NANOS_IN_MONTH + d.days * NANOS_IN_DAY + d.nanos
  }

  function Min(a: int, b: int): int {
    if a < b then a else b
  }

  function Max(a: int, b: int): int {
    if a > b then a else b
  }

  // ------------------------------------------------- normalisation, with wrapping arithmetic

  function ShiftPosDaysToMonths(d: Duration): Duration {
    var maxMonths := if d.months > 0 then MAX_INT64 - d.months else MAX_INT64;
    var monthsFromDays := Min(Quo(d.days, DAYS_PER_MONTH), maxMonths);
    Duration(ToInt64(d.months + monthsFromDays), ToInt64(d.days - ToInt64(monthsFromDays * DAYS_PER_MONTH)), d.nanos)
  }

  function ShiftPosNanosToDays(d: Duration): Duration {
    var maxDays := if d.days > 0 then MAX_INT64 - d.days else MAX_INT64;
    var daysFromNanos := Min(Quo(d.nanos, NANOS_IN_DAY), maxDays);
    Duration(d.months, ToInt64(d.days + daysFromNanos), ToInt64(d.nanos - ToInt64(daysFromNanos * NANOS_IN_DAY)))
  }

  function ShiftNegDaysToMonths(d: Duration): Duration {
    var minMonths := if d.months < 0 then MIN_INT64 - d.months else MIN_INT64;
    var monthsFromDays := Max(Quo(d.days, DAYS_PER_MONTH), minMonths);
    Duration(ToInt64(d.months + monthsFromDays), ToInt64(d.days - ToInt64(monthsFromDays * DAYS_PER_MONTH)), d.nanos)
  }

  function ShiftNegNanosToDays(d: Duration): Duration {
    var minDays := if d.days < 0 then MIN_INT64 - d.days else MIN_INT64;
    var daysFromNanos := Max(Quo(d.nanos, NANOS_IN_DAY), minDays);
    Duration(d.months, ToInt64(d.days + daysFromNanos), ToInt64(d.nanos - ToInt64(daysFromNanos * NANOS_IN_DAY)))
  }

  function Normalize(d: Duration): Duration {
    var e := if d.days > 0 then ShiftPosDaysToMonths(d) else if d.days < 0 then ShiftNegDaysToMonths(d) else d;
    if e.nanos > 0 then ShiftPosDaysToMonths(ShiftPosNanosToDays(e))
    else if e.nanos < 0 then ShiftNegDaysToMonths(ShiftNegNanosToDays(e))
    else e
  }

  function Compare(d: Duration, x: Duration): int {
    var a, b := Normalize(d), Normalize(x);
    if a.months < b.months then -1
    else if a.months > b.months then 1
    else if a.days < b.days then -1
    else if a.days > b.days then 1
    else if a.nanos < b.nanos then -1
    else if a.nanos > b.nanos then 1
    else 0
  }

  // ------------------------------------------------- what normalising keeps

  predicate NonNegative(d: Duration) {
    d.months >= 0 && d.days >= 0 && d.nanos >= 0
  }

  predicate NonPositive(d: Duration) {
    d.months <= 0 && d.days <= 0 && d.nanos <= 0
  }

  /** The parts do not differ in sign. */
  predicate SameSign(d: Duration) {
    NonNegative(d) || NonPositive(d)
  }

  /** Nothing more can be carried into the larger unit. */
  predicate Carried(d: Duration) {
    if NonNegative(d) then
      (d.months < MAX_INT64 ==> d.days < DAYS_PER_MONTH) && (d.days < MAX_INT64 ==> d.nanos < NANOS_IN_DAY)
    else
      && NonPositive(d) && (d.months > MIN_INT64 ==> d.days > -DAYS_PER_MONTH) && (d.days > MIN_INT64 ==> d.nanos > -NANOS_IN_DAY)
  }

  lemma Fits(x: int)
    requires MIN_INT64 <= x <= MAX_INT64
    ensures ToInt64(x) == x
  {
  }

  lemma DaysShift(d: Duration)
    requires NonNegative(d)
    ensures var e := ShiftPosDaysToMonths(d);
            && NonNegative(e) && Total(e) == Total(d) && e.nanos == d.nanos && e.months >= d.months && e.days <= d.days
            && (e.months < MAX_INT64 ==> e.days < DAYS_PER_MONTH) && (d.months == MAX_INT64 ==> e == d)
  {
    hide ToInt64;
    var m := Min(d.days / DAYS_PER_MONTH, MAX_INT64 - d.months);
    Fits(m * DAYS_PER_MONTH);
    Fits(d.days - m * DAYS_PER_MONTH);
    Fits(d.months + m);
  }

  lemma NanosShift(d: Duration)
    requires NonNegative(d)
    ensures var e := ShiftPosNanosToDays(d);
            && NonNegative(e) && Total(e) == Total(d) && e.months == d.months && e.days >= d.days
            && (e.days < MAX_INT64 ==> e.nanos < NANOS_IN_DAY) && (d.days < 1_000_000 ==> e.nanos < NANOS_IN_DAY)
  {
    hide ToInt64;
    var m := Min(d.nanos / NANOS_IN_DAY, MAX_INT64 - d.days);
    Fits(m * NANOS_IN_DAY);
    Fits(d.nanos - m * NANOS_IN_DAY);
    Fits(d.days + m);
  }

  lemma DaysShiftDown(d: Duration)
    requires NonPositive(d)
    ensures var e := ShiftNegDaysToMonths(d);
            && NonPositive(e) && Total(e) == Total(d) && e.nanos == d.nanos && e.months <= d.months && e.days >= d.days
            && (e.months > MIN_INT64 ==> e.days > -DAYS_PER_MONTH) && (d.months == MIN_INT64 ==> e == d)
  {
    hide ToInt64;
    var days: int := d.days;
    var m := Max(-((-days) / DAYS_PER_MONTH), MIN_INT64 - d.months);
    Fits(m * DAYS_PER_MONTH);
    Fits(d.days - m * DAYS_PER_MONTH);
    Fits(d.months + m);
  }

  lemma NanosShiftDown(d: Duration)
    requires NonPositive(d)
    ensures var e := ShiftNegNanosToDays(d);
            && NonPositive(e) && Total(e) == Total(d) && e.months == d.months && e.days <= d.days
            && (e.days > MIN_INT64 ==> e.nanos > -NANOS_IN_DAY) && (d.days > -1_000_000 ==> e.nanos > -NANOS_IN_DAY)
  {
    hide ToInt64;
    var nanos: int := d.nanos;
    var m := Max(-((-nanos) / NANOS_IN_DAY), MIN_INT64 - d.days);
    Fits(m * NANOS_IN_DAY);
    Fits(d.nanos - m * NANOS_IN_DAY);
    Fits(d.days + m);
  }

  /** At every magnitude, normalising conserves the total, keeps the sign and carries all it can. */
  lemma NormalizeConserves(d: Duration)
    requires SameSign(d)
    ensures Total(Normalize(d)) == Total(d) && Carried(Normalize(d))
    ensures if NonNegative(d) then NonNegative(Normalize(d)) else NonPositive(Normalize(d))
  {
    hide ShiftPosDaysToMonths, ShiftPosNanosToDays, ShiftNegDaysToMonths, ShiftNegNanosToDays;
    if NonNegative(d) {
      DaysShift(d);
      var e := if d.days > 0 then ShiftPosDaysToMonths(d) else d;
      NanosShift(e);
      DaysShift(ShiftPosNanosToDays(e));
    } else {
      DaysShiftDown(d);
      var e := if d.days < 0 then ShiftNegDaysToMonths(d) else d;
      NanosShiftDown(e);
      DaysShiftDown(ShiftNegNanosToDays(e));
    }
  }

  function Sign(x: int): int {
    if x < 0 then -1 else if x > 0 then 1 else 0
  }

  /** The part-by-part order of carried durations is the order of their totals. */
  lemma CarriedOrder(a: Duration, b: Duration)
    requires Carried(a) && Carried(b)
    requires a.months < b.months || (a.months == b.months && (a.days < b.days || (a.days == b.days && a.nanos < b.nanos)))
    ensures Total(a) < Total(b)
  {
    if a.months < b.months {
      MonthsFirst(a, b);
    } else if a.days < b.days {
      assert (b.days - a.days) * NANOS_IN_DAY >= NANOS_IN_DAY;
    }
  }

  lemma MonthsFirst(a: Duration, b: Duration)
    requires Carried(a) && Carried(b) && a.months < b.months
    ensures Total(a) < Total(b)
  {
    if NonNegative(a) {
      assert a.days * NANOS_IN_DAY + a.nanos < NANOS_IN_MONTH;
    } else if NonNegative(b) {
      assert Total(b) >= 0;
    } else {
      assert b.days * NANOS_IN_DAY + b.nanos > -NANOS_IN_MONTH;
    }
  }

  lemma CarriedCompare(a: Duration, b: Duration)
    requires Carried(a) && Carried(b)
    ensures Sign(Total(a) - Total(b)) ==
      if a.months != b.months then Sign(a.months - b.months)
      else if a.days != b.days then Sign(a.days - b.days) else Sign(a.nanos - b.nanos)
  {
    hide Total, Carried;
    if a != b {
      if a.months < b.months || (a.months == b.months && (a.days < b.days || (a.days == b.days && a.nanos < b.nanos))) {
        CarriedOrder(a, b);
      } else {
        CarriedOrder(b, a);
      }
    }
  }

  /** Compare is the comparison of totals on durations whose parts agree in sign. */
  lemma CompareIsTotal(d: Duration, x: Duration)
    requires SameSign(d) && SameSign(x)
    ensures Compare(d, x) == Sign(Total(d) - Total(x))
  {
    hide Normalize, Total, Carried;
    NormalizeConserves(d);
    NormalizeConserves(x);
    CarriedCompare(Normalize(d), Normalize(x));
  }

  /** d normalises to a form of one sign without losing anything on the way. */
  predicate Normal(d: Duration) {
    Carried(Normalize(d)) && Total(Normalize(d)) == Total(d)
  }

  predicate Agree(months: int, days: int, nanos: int) {
    (months >= 0 && days >= 0 && nanos >= 0) || (months <= 0 && days <= 0 && nanos <= 0)
  }

  /** The months of d with its days carried into them, before any cutting to 64 bits. */
  function FullMonths(d: Duration): int {
    d.months + Quo(d.days, DAYS_PER_MONTH)
  }

  /** What can be read off the parts: once days and nanoseconds are carried, no part has the other
      sign. At the ends of int64, where months fill up and leave `days` behind, nanoseconds of the
      other sign must be whole days that take these back to less than a month, or to whole
      months of the other sign. */
  predicate Regular(d: Duration) {
    var nanos := Rem(d.nanos, NANOS_IN_DAY);
    if FullMonths(d) > MAX_INT64 && d.nanos < 0 then
      var days := d.days - DAYS_PER_MONTH * (MAX_INT64 - d.months) + Quo(d.nanos, NANOS_IN_DAY);
      nanos == 0 && days < DAYS_PER_MONTH && (days < 0 ==> Rem(days, DAYS_PER_MONTH) == 0)
    else if FullMonths(d) < MIN_INT64 && d.nanos > 0 then
      var days := d.days - DAYS_PER_MONTH * (MIN_INT64 - d.months) + Quo(d.nanos, NANOS_IN_DAY);
      nanos == 0 && days > -DAYS_PER_MONTH && (days > 0 ==> Rem(days, DAYS_PER_MONTH) == 0)
    else
      var days := Rem(d.days, DAYS_PER_MONTH) + Quo(d.nanos, NANOS_IN_DAY);
      Agree(FullMonths(d) + Quo(days, DAYS_PER_MONTH), Rem(days, DAYS_PER_MONTH), nanos)
  }

  /** Every total has a duration whose parts agree in sign. */
  lemma SameTotal(d: Duration) returns (x: Duration)
    ensures SameSign(x) && Total(x) == Total(d)
  {
    var t := Total(d);
    if t >= 0 {
      var months := Min(t / NANOS_IN_MONTH, MAX_INT64);
      var rest := t - months * NANOS_IN_MONTH;
      var days := Min(rest / NANOS_IN_DAY, MAX_INT64);
      x := Duration(months, days, rest - days * NANOS_IN_DAY);
    } else {
      var months := Max(-(-t / NANOS_IN_MONTH), MIN_INT64);
      var rest := t - months * NANOS_IN_MONTH;
      var days := Max(-(-rest / NANOS_IN_DAY), MIN_INT64);
      x := Duration(months, days, rest - days * NANOS_IN_DAY);
    }
  }

  lemma QuoRem(a: int, b: int)
    requires b > 0
    ensures a == b * Quo(a, b) + Rem(a, b) && -b < Rem(a, b) < b
    ensures (a >= 0 ==> Quo(a, b) >= 0 && Rem(a, b) >= 0) && (a <= 0 ==> Quo(a, b) <= 0 && Rem(a, b) <= 0)
    ensures (Quo(a, b) > 0 ==> a >= b) && (Quo(a, b) < 0 ==> a <= -b) && (Quo(a, b) == 0 ==> Rem(a, b) == a)
  {
    NatQuoRem(if a >= 0 then a else -a, b);
  }

  lemma NatQuoRem(a: nat, b: int)
    requires b > 0
    ensures a == b * (a / b) + a % b && 0 <= a % b < b && a / b >= 0
    ensures (a / b > 0 ==> a >= b) && (a / b == 0 ==> a % b == a)
  {
    if a / b > 0 { assert b * (a / b) >= b; }
  }

  function Clamp(x: int): int64 {
    if x > MAX_INT64 then MAX_INT64 else if x < MIN_INT64 then MIN_INT64 else x
  }

  /** A shift of days into months in the direction of its name, from any months: the months stop at
      the end of int64 they move to. */
  lemma CarryDays(d: Duration)
    ensures var e := if d.days >= 0 then ShiftPosDaysToMonths(d) else ShiftNegDaysToMonths(d);
            && e.months == Clamp(FullMonths(d)) && e.days == d.days - DAYS_PER_MONTH * (e.months - d.months) && e.nanos == d.nanos
  {
    hide ToInt64, Quo;
    QuoRem(d.days, DAYS_PER_MONTH);
    var m := Clamp(FullMonths(d)) - d.months;
    assert -TWO63 <= DAYS_PER_MONTH * m < TWO63 && -TWO63 <= d.days - DAYS_PER_MONTH * m < TWO63;
    Fits(d.months + m);
    Fits(m * DAYS_PER_MONTH);
    Fits(d.days - m * DAYS_PER_MONTH);
  }

  /** The same shift against the direction of its name: nothing stops the months, which wrap. */
  lemma CarryDaysBack(d: Duration)
    requires d.days != 0
    ensures var e := if d.days < 0 then ShiftPosDaysToMonths(d) else ShiftNegDaysToMonths(d);
            && e.months == ToInt64(FullMonths(d)) && e.days == Rem(d.days, DAYS_PER_MONTH) && e.nanos == d.nanos
  {
    hide ToInt64, Quo, Rem;
    QuoRem(d.days, DAYS_PER_MONTH);
    var m := Quo(d.days, DAYS_PER_MONTH);
    Fits(m * DAYS_PER_MONTH);
    Fits(d.days - m * DAYS_PER_MONTH);
  }

  /** Nanoseconds carried into days that have room for them. */
  lemma CarryNanos(d: Duration)
    requires MIN_INT64 <= d.days + Quo(d.nanos, NANOS_IN_DAY) <= MAX_INT64
    ensures var e := if d.nanos >= 0 then ShiftPosNanosToDays(d) else ShiftNegNanosToDays(d);
            && e == Duration(d.months, d.days + Quo(d.nanos, NANOS_IN_DAY), Rem(d.nanos, NANOS_IN_DAY))
  {
    hide ToInt64, Quo, Rem;
    QuoRem(d.nanos, NANOS_IN_DAY);
    var m := Quo(d.nanos, NANOS_IN_DAY);
    Fits(m * NANOS_IN_DAY);
    Fits(d.nanos - m * NANOS_IN_DAY);
    Fits(d.days + m);
  }

  /** Carried once, months at an end of int64 may be left with more days than a month. */
  lemma FirstCarry(d: Duration)
    ensures var e := if d.days > 0 then ShiftPosDaysToMonths(d) else if d.days < 0 then ShiftNegDaysToMonths(d) else d;
            && e.months == Clamp(FullMonths(d)) && e.days == d.days - DAYS_PER_MONTH * (e.months - d.months) && e.nanos == d.nanos
            && (if FullMonths(d) > MAX_INT64 then e.days >= DAYS_PER_MONTH && d.months > 0 && d.days > 0
                else if FullMonths(d) < MIN_INT64 then e.days <= -DAYS_PER_MONTH && d.months < 0 && d.days < 0
                else e.days == Rem(d.days, DAYS_PER_MONTH))
  {
    hide ShiftPosDaysToMonths, ShiftNegDaysToMonths, Quo, Rem;
    QuoRem(d.days, DAYS_PER_MONTH);
    CarryDays(d);
  }

  lemma SameSignRegular(d: Duration)
    requires SameSign(d)
    ensures Regular(d)
  {
    hide Quo, Rem;
    QuoRem(d.days, DAYS_PER_MONTH);
    QuoRem(d.nanos, NANOS_IN_DAY);
    QuoRem(Rem(d.days, DAYS_PER_MONTH) + Quo(d.nanos, NANOS_IN_DAY), DAYS_PER_MONTH);
  }

  lemma SameSignNormal(d: Duration)
    requires SameSign(d)
    ensures Normal(d)
  {
    hide Normalize, Carried, Total;
    NormalizeConserves(d);
  }

  /** The last shift for positive nanoseconds, by where the months end up. */
  lemma LastCarryUp(e: Duration)
    requires 0 <= e.nanos < NANOS_IN_DAY
    ensures var g := ShiftPosDaysToMonths(e);
            if FullMonths(e) < MIN_INT64 then Total(g) != Total(e)
            else Total(g) == Total(e) && (Carried(g) <==> Agree(FullMonths(e), Rem(e.days, DAYS_PER_MONTH), e.nanos))
  {
    hide ShiftPosDaysToMonths, Quo, Rem, ToInt64;
    QuoRem(e.days, DAYS_PER_MONTH);
    if e.days >= 0 {
      CarryDays(e);
    } else {
      CarryDaysBack(e);
      if FullMonths(e) < MIN_INT64 { Wrapped(FullMonths(e)); } else { Fits(FullMonths(e)); }
    }
  }

  lemma LastCarryDown(e: Duration)
    requires -NANOS_IN_DAY < e.nanos <= 0
    ensures var g := ShiftNegDaysToMonths(e);
            if FullMonths(e) > MAX_INT64 then Total(g) != Total(e)
            else Total(g) == Total(e) && (Carried(g) <==> Agree(FullMonths(e), Rem(e.days, DAYS_PER_MONTH), e.nanos))
  {
    hide ShiftNegDaysToMonths, Quo, Rem, ToInt64;
    QuoRem(e.days, DAYS_PER_MONTH);
    if e.days < 0 {
      CarryDays(e);
    } else if e.days == 0 {
      NoDays(e);
    } else {
      CarryDaysBack(e);
      if FullMonths(e) > MAX_INT64 { Wrapped(FullMonths(e)); } else { Fits(FullMonths(e)); }
    }
  }

  lemma NoDays(e: Duration)
    requires e.days == 0
    ensures ShiftNegDaysToMonths(e) == e
  {
    hide ToInt64;
    Fits(e.months);
    Fits(0);
  }

  lemma Wrapped(x: int)
    requires x > MAX_INT64 || x < MIN_INT64
    ensures ToInt64(x) != x
  {
  }

  lemma RegularUp(d: Duration)
    requires d.nanos > 0 && !SameSign(d)
    ensures Normal(d) <==> Regular(d)
  {
    hide ShiftPosDaysToMonths, ShiftNegDaysToMonths, ShiftPosNanosToDays, Quo, Rem, ToInt64, Carried;
    QuoRem(d.days, DAYS_PER_MONTH);
    QuoRem(d.nanos, NANOS_IN_DAY);
    FirstCarry(d);
    var e := if d.days > 0 then ShiftPosDaysToMonths(d) else if d.days < 0 then ShiftNegDaysToMonths(d) else d;
    CarryNanos(e);
    var f := ShiftPosNanosToDays(e);
    QuoRem(f.days, DAYS_PER_MONTH);
    LastCarryUp(f);
  }

  lemma RegularDown(d: Duration)
    requires d.nanos < 0 && !SameSign(d)
    ensures Normal(d) <==> Regular(d)
  {
    hide ShiftPosDaysToMonths, ShiftNegDaysToMonths, ShiftNegNanosToDays, Quo, Rem, ToInt64, Carried;
    QuoRem(d.days, DAYS_PER_MONTH);
    QuoRem(d.nanos, NANOS_IN_DAY);
    FirstCarry(d);
    var e := if d.days > 0 then ShiftPosDaysToMonths(d) else if d.days < 0 then ShiftNegDaysToMonths(d) else d;
    CarryNanos(e);
    var f := ShiftNegNanosToDays(e);
    QuoRem(f.days, DAYS_PER_MONTH);
    LastCarryDown(f);
  }

  lemma RegularLevel(d: Duration)
    requires d.nanos == 0 && !SameSign(d)
    ensures Normal(d) <==> Regular(d)
  {
    hide ShiftPosDaysToMonths, ShiftNegDaysToMonths, Quo, Rem, ToInt64;
    QuoRem(d.days, DAYS_PER_MONTH);
    QuoRem(d.nanos, NANOS_IN_DAY);
    FirstCarry(d);
    QuoRem(Rem(d.days, DAYS_PER_MONTH), DAYS_PER_MONTH);
  }

  /** At every magnitude and for every mixture of signs, a duration normalises without loss exactly
      if its parts are regular. */
  lemma NormalExact(d: Duration)
    ensures Normal(d) <==> Regular(d)
  {
    hide Normal, Regular;
    if SameSign(d) {
      SameSignRegular(d);
      SameSignNormal(d);
    } else if d.nanos > 0 {
      RegularUp(d);
    } else if d.nanos < 0 {
      RegularDown(d);
    } else {
      RegularLevel(d);
    }
  }

  /** Compare is the comparison of totals between any two regular durations, whatever the signs of
      their parts. An irregular duration compares wrongly with some regular one, of parts that agree
      in sign and the same total. */
  lemma CompareExact(d: Duration)
    ensures Regular(d) <==> forall x :: Regular(x) ==> Compare(d, x) == Sign(Total(d) - Total(x))
    ensures Regular(d) <==> forall x :: SameSign(x) ==> Compare(d, x) == Sign(Total(d) - Total(x))
    ensures SameSign(d) ==> Regular(d)
  {
    hide Normalize, Total, Carried, Regular;
    if SameSign(d) { SameSignRegular(d); }
    NormalExact(d);
    if Regular(d) {
      forall x | Regular(x) ensures Compare(d, x) == Sign(Total(d) - Total(x)) {
        NormalExact(x);
        CarriedCompare(Normalize(d), Normalize(x));
      }
      forall x | SameSign(x) ensures Regular(x) { SameSignRegular(x); }
    } else {
      var x := SameTotal(d);
      NormalizeConserves(x);
      SameSignRegular(x);
      assert SameSign(x) && Normalize(d) != Normalize(x);
    }
  }

  /** Irregular durations: equal totals that compare as different, and months that wrap around. */
  lemma MixedSigns()
    ensures var d, x := Duration(1, -1, 0), Duration(0, 29, 0);
            Total(d) == Total(x) && Compare(d, x) == 1 && !Regular(d)
    ensures var d := Duration(MIN_INT64, -100, 1);
            Normalize(d).months > 0 && !Regular(d)
  {
    var d := Duration(MIN_INT64, -100, 1);
    var e := ShiftNegDaysToMonths(d);
    assert e == d;
    assert ShiftPosNanosToDays(e) == d;
    assert ToInt64(MIN_INT64 - 3) == MAX_INT64 - 2;
    assert ShiftPosDaysToMonths(d).months == MAX_INT64 - 2;
  }

  // ------------------------------------------------- the three integers of a key

  const MAX_YEARS := 3558
  const MONTHS_PER_YEAR := 12

  /** Encode; None is the overflow error, which compares years with a bound counted in months. */
  function Encode(d: Duration): Option<(int64, int64, int64)> {
    var years := Quo(d.months, MONTHS_PER_YEAR) + Quo(Quo(d.days, DAYS_PER_MONTH), MONTHS_PER_YEAR) +
                 Quo(Quo(d.nanos, NANOS_IN_MONTH), MONTHS_PER_YEAR);
    if years > MAX_YEARS || years < -MAX_YEARS then None
    else Some((ToInt64(ToInt64(ToInt64(d.months * NANOS_IN_MONTH) + ToInt64(d.days * NANOS_IN_DAY)) + d.nanos), d.months, d.days))
  }

  function Decode(sortNanos: int64, months: int64, days: int64): Duration {
    Duration(months, days, ToInt64(ToInt64(sortNanos - ToInt64(months * NANOS_IN_MONTH)) - ToInt64(days * NANOS_IN_DAY)))
  }

  /** Wrapping at the end is enough. */
  lemma WrapSum(a: int, b: int)
    ensures ToInt64(ToInt64(a) + ToInt64(b)) == ToInt64(a + b) && ToInt64(ToInt64(a) - ToInt64(b)) == ToInt64(a - b)
  {
    var i, j := (ToInt64(a) - a) / TWO64, (ToInt64(b) - b) / TWO64;
    Wraps(a);
    Wraps(b);
    ModShift(a + b, i + j);
    ModShift(a - b, i - j);
  }

  lemma Wraps(a: int)
    ensures ToInt64(a) == a + (ToInt64(a) - a) / TWO64 * TWO64
  {
    assert ToInt64(a) - a == -(a / TWO64) * TWO64 || ToInt64(a) - a == (-(a / TWO64) - 1) * TWO64;
  }

  /** Whatever is encoded is decoded again, even where the sum wraps. The first integer is the total
      exactly if the total fits 64 bits. */
  lemma EncodeDecode(d: Duration)
    requires Encode(d).Some?
    ensures var (n, months, days) := Encode(d).value;
            && Decode(n, months, days) == d && (n == Total(d) <==> MIN_INT64 <= Total(d) <= MAX_INT64)
  {
    hide ToInt64;
    var m, k := d.months * NANOS_IN_MONTH, d.days * NANOS_IN_DAY;
    var (n, _, _) := Encode(d).value;
    WrapSum(m, k);
    WrapAdd(m + k, d.nanos);
    assert n == ToInt64(Total(d));
    FitsExactly(Total(d));
    WrapSum(Total(d), m);
    WrapInside(Total(d), m);
    WrapSum(Total(d) - m, k);
    WrapInside(Total(d) - m, k);
    Fits(d.nanos);
  }

  lemma WrapInside(a: int, b: int)
    ensures ToInt64(ToInt64(a) - ToInt64(b)) == ToInt64(a - b) && ToInt64(ToInt64(ToInt64(a)) - ToInt64(b)) == ToInt64(a - b)
  {
    WrapSum(a, b);
    Fits(ToInt64(a));
  }

  lemma FitsExactly(x: int)
    ensures ToInt64(x) == x <==> MIN_INT64 <= x <= MAX_INT64
  {
  }

  /** The guard lets durations through whose total does not fit. */
  lemma EncodeWraps()
    ensures var d := Duration(MAX_YEARS * MONTHS_PER_YEAR, 0, 0); Encode(d).Some? && Encode(d).value.0 != Total(d)
  {
    var d := Duration(MAX_YEARS * MONTHS_PER_YEAR, 0, 0);
    assert Encode(d).Some?;
    EncodeDecode(d);
  }

  // ------------------------------------------------- differences of times

  const MICROSECOND := 1000
  const MAX_MICRO_DUR := 9_223_372_036_854_775

  /** time.Time.Sub, which saturates. */
  function Sub(t1: int, t2: int): int64 {
    if t1 - t2 > MAX_INT64 then MAX_INT64 else if t1 - t2 < MIN_INT64 then MIN_INT64 else t1 - t2
  }

  /** n / 1000, rounded half away from zero. */
  function RoundedMicros(n: int): int {
    var q, r := Quo(n, MICROSECOND), Rem(n, MICROSECOND);
    if r >= MICROSECOND / 2 then q + 1 else if r <= -MICROSECOND / 2 then q - 1 else q
  }

  /** It is the nearest multiple; of two equally near ones the one farther from zero. */
  lemma RoundedMeans(n: int, m: int)
    requires m != RoundedMicros(n)
    ensures var r := RoundedMicros(n);
            var d, e := Distance(MICROSECOND * r, n), Distance(MICROSECOND * m, n);
            d < e || (d == e && Distance(MICROSECOND * m, 0) < Distance(MICROSECOND * r, 0))
  {
    QuoRem(n, MICROSECOND);
    NearestFrom(n, m, RoundedMicros(n));
  }

  lemma NearestFrom(n: int, m: int, r: int)
    requires m != r && -MICROSECOND <= 2 * (n - MICROSECOND * r) <= MICROSECOND
    requires 2 * (n - MICROSECOND * r) == MICROSECOND ==> n < 0
    requires 2 * (n - MICROSECOND * r) == -MICROSECOND ==> n > 0
    ensures var d, e := Distance(MICROSECOND * r, n), Distance(MICROSECOND * m, n);
            d < e || (d == e && Distance(MICROSECOND * m, 0) < Distance(MICROSECOND * r, 0))
  {
    if m < r { assert MICROSECOND * m <= MICROSECOND * r - MICROSECOND; } else { assert MICROSECOND * m >= MICROSECOND * r + MICROSECOND; }
  }

  /** Whole microseconds taken out of a number move through the rounding unchanged. */
  lemma RoundedSplit(n: int, whole: int, rest: int)
    requires n == MICROSECOND * whole + rest
    requires (whole >= 0 && rest >= 0) || (whole <= 0 && rest <= 0)
    ensures RoundedMicros(n) == whole + RoundedMicros(rest)
  {
    if n >= 0 {
      assert n / MICROSECOND == whole + rest / MICROSECOND;
      assert n % MICROSECOND == rest % MICROSECOND;
    } else {
      assert (-n) / MICROSECOND == -whole + (-rest) / MICROSECOND;
      assert (-n) % MICROSECOND == (-rest) % MICROSECOND;
    }
  }

  /** Adding to an int64 counter commutes with wrapping. */
  lemma WrapAdd(a: int, b: int)
    ensures ToInt64(ToInt64(a) + b) == ToInt64(a + b)
  {
    var r := a % TWO64;
    var k := (ToInt64(a) - a) / TWO64;
    assert ToInt64(a) - a == -(a / TWO64) * TWO64 || ToInt64(a) - a == (-(a / TWO64) - 1) * TWO64;
    assert ToInt64(a) == a + k * TWO64;
    assert (ToInt64(a) + b) % TWO64 == (a + b) % TWO64 by { ModShift(a + b, k); }
  }

  lemma ModShift(x: int, k: int)
    ensures (x + k * TWO64) % TWO64 == x % TWO64
  {
    var q, r := x / TWO64, x % TWO64;
    assert x + k * TWO64 == (q + k) * TWO64 + r;
  }

  function Distance(t1: int, t2: int): nat {
    if t1 >= t2 then t1 - t2 else t2 - t1
  }

  /** DiffMicros: the remaining gap shrinks by a saturated step each time round. */
  method DiffMicros(t1: int, t2: int) returns (micros: int64)
    ensures micros == ToInt64(RoundedMicros(t1 - t2))
  {
    hide ToInt64;
    micros := 0;
    Fits(0);
    var nanos := 0;
    var t := t1;
    ghost var whole := 0;
    while true
      invariant micros == ToInt64(whole) && t1 - t2 == MICROSECOND * whole + nanos + (t - t2)
      invariant t1 >= t2 ==> whole >= 0 && nanos >= 0 && t >= t2
      invariant t1 <= t2 ==> whole <= 0 && nanos <= 0 && t <= t2
      decreases Distance(t, t2)
    {
      var d: int := Sub(t, t2);
      var overflow := d == MIN_INT64 || d == MAX_INT64;
      if d == MIN_INT64 {
        d := -MAX_INT64;
      }
      WrapAdd(whole, Quo(d, MICROSECOND));
      micros := ToInt64(micros + Quo(d, MICROSECOND));
      whole := whole + Quo(d, MICROSECOND);
      nanos := nanos + Rem(d, MICROSECOND);
      if !overflow {
        break;
      }
      t := t - d;
    }
    RoundedSplit(t1 - t2, whole, nanos);
    WrapAdd(whole, Quo(nanos, MICROSECOND));
    micros := ToInt64(micros + Quo(nanos, MICROSECOND));
    var nanoRem := Rem(nanos, MICROSECOND);
    if nanoRem >= MICROSECOND / 2 {
      WrapAdd(whole + Quo(nanos, MICROSECOND), 1);
      micros := ToInt64(micros + 1);
    } else if nanoRem <= -MICROSECOND / 2 {
      WrapAdd(whole + Quo(nanos, MICROSECOND), -1);
      micros := ToInt64(micros - 1);
    }
  }

  lemma LeastNegated()
    ensures ToInt64(-MIN_INT64) == MIN_INT64 && ToInt64(MIN_INT64 * MICROSECOND) == 0
  {
  }

  /** AddMicros: exact for every delta but the least, which negates to itself and adds nothing. */
  method AddMicros(t: int, d: int64) returns (r: int)
    ensures r == if d == MIN_INT64 then t else t + MICROSECOND * d
  {
    hide ToInt64;
    LeastNegated();
    var negMult: int := 1;
    var delta: int := d;
    if d < 0 {
      negMult := -1;
      if d != MIN_INT64 { Fits(-delta); }
      delta := ToInt64(-delta);
    }
    r := t;
    while delta > MAX_MICRO_DUR
      invariant d == MIN_INT64 ==> delta == MIN_INT64 && r == t
      invariant d != MIN_INT64 ==> delta >= 0 && r + MICROSECOND * negMult * delta == t + MICROSECOND * d
      invariant delta <= MAX_INT64
    {
      r := r + negMult * (MAX_MICRO_DUR * MICROSECOND);
      delta := delta - MAX_MICRO_DUR;
    }
    if d != MIN_INT64 {
      Fits(negMult * delta);
      Fits(negMult * delta * MICROSECOND);
    }
    r := r + ToInt64(ToInt64(negMult * delta) * MICROSECOND);
  }

  /** The difference undoes the addition exactly for every delta but the least int64. */
  method AddThenDiff(t: int, d: int64) returns (r: int64)
    ensures r == d <==> d != MIN_INT64
  {
    var u := AddMicros(t, d);
    r := DiffMicros(u, t);
    if d == MIN_INT64 {
      assert RoundedMicros(0) == 0 && ToInt64(0) == 0;
    } else {
      RoundedSplit(MICROSECOND * d, d, 0);
      Fits(d);
    }
  }
}
