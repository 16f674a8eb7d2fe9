/**
 * The sample height/weight series of the measurement chart
 * (components/dashboard/measurement-chart.tsx): a range token picks a number
 * of months, and one point is built per month, labelled with the month's
 * name and carrying a base value plus bounded random noise.
 */
module MeasurementChart {
  import opened Calendar
  import opened JsNumbers

  datatype SamplePoint = SamplePoint(month: string, height: real, weight: real)

  const MonthNames: seq<string> :=
    ["Jan", "Feb", "Mar", "Apr", "May", "Jun", "Jul", "Aug", "Sep", "Oct", "Nov", "Dec"]

  /** Two calls of `Math.random()`: the height noise draw and the weight noise draw. */
  datatype Draw = Draw(heightDraw: real, weightDraw: real) {
    predicate Valid() {
      0.0 <= heightDraw < 1.0 && 0.0 <= weightDraw < 1.0
    }
  }

  /** The number of months a range token selects; an unknown token selects the default of three. */
  function MonthCount(timeRange: string): (n: nat)
    ensures n in {1, 3, 6, 12}
    ensures timeRange == "1month" ==> n == 1
    ensures timeRange == "6months" ==> n == 6
    ensures timeRange == "1year" ==> n == 12
    ensures timeRange !in ["1month", "6months", "1year"] ==> n == 3
  {
    if timeRange == "1month" then 1
    else if timeRange == "6months" then 6
    else if timeRange == "1year" then 12
    else 3
  }

  /** The name of a day's month. */
  function MonthName(d: CalendarDate): string
  {
    MonthNames[d.month]
  }

  /** The day that labels point `i` of `count`: `now` moved back `count - 1 - i` months. */
  function PointDate(now: CalendarDate, count: nat, i: nat): CalendarDate
    requires i < count
  {
    AddMonths(now, -(count - 1 - i))
  }

  /** Height before rounding: 130 cm growing by 0.7 cm a month, plus noise in [-0.3, 0.3). */
  function RawHeight(i: nat, r: real): (h: real)
    requires 0.0 <= r < 1.0
    ensures 129.7 + 0.7 * i as real <= h < 130.3 + 0.7 * i as real
  {
    130.0 + i as real * 0.7 + (r * 0.6 - 0.3)
  }

  /** Weight before rounding: 40 kg growing by 0.2 kg a month, plus noise in [-0.2, 0.2). */
  function RawWeight(i: nat, r: real): (w: real)
    requires 0.0 <= r < 1.0
    ensures 39.8 + 0.2 * i as real <= w < 40.2 + 0.2 * i as real
  {
    40.0 + i as real * 0.2 + (r * 0.4 - 0.2)
  }

  /** `Number(x.toFixed(1))` for the values of this chart, which lie far inside toFixed's fixed-point range. */
  function Rounded(x: real): (r: real)
    requires 0.0 <= x < 1000.0
    ensures ToFixedOne(Finite(x)) == Finite(r)
    ensures -0.05 <= r - x <= 0.05
  {
    RoundToTenth(x)
  }

  /** Point `i` of a series of `count` points built on draw `d`. */
  function PointAt(now: CalendarDate, count: nat, i: nat, d: Draw): SamplePoint
    requires i < count <= 12 && d.Valid()
  {
    SamplePoint(MonthName(PointDate(now, count, i)),
                Rounded(RawHeight(i, d.heightDraw)),
                Rounded(RawWeight(i, d.weightDraw)))
  }

  /** The if-chain that picks the number of months. */
  method NumMonths(timeRange: string) returns (numMonths: nat)
    ensures numMonths == MonthCount(timeRange)
  {
    numMonths := 3;
    if timeRange == "1month" { numMonths := 1; }
    if timeRange == "3months" { numMonths := 3; }
    if timeRange == "6months" { numMonths := 6; }
    if timeRange == "1year" { numMonths := 12; }
  }

  /**
   * `generateChartData(timeRange)` with the clock read as `now` and the calls
   * of `Math.random()` supplied as `draws`, one pair per month.
   */
  method GenerateChartData(timeRange: string, now: CalendarDate, draws: seq<Draw>) returns (result: seq<SamplePoint>)
    requires |draws| >= MonthCount(timeRange)
    requires forall i :: 0 <= i < |draws| ==> draws[i].Valid()
    ensures |result| == MonthCount(timeRange)
    ensures forall i :: 0 <= i < |result| ==> result[i] == PointAt(now, |result|, i, draws[i])
    ensures forall i :: 0 <= i < |result| ==> result[i].month in MonthNames
    ensures result[|result| - 1].month == MonthNames[now.month]
  {
    var numMonths := NumMonths(timeRange);
    result := [];
    var i := 0;
    while i < numMonths
      invariant 0 <= i <= numMonths <= 12
      invariant |result| == i
      invariant forall j :: 0 <= j < i ==> result[j] == PointAt(now, numMonths, j, draws[j])
    {
      var month := AddMonths(now, -(numMonths - 1 - i));
      var height := RawHeight(i, draws[i].heightDraw);
      var weight := RawWeight(i, draws[i].weightDraw);
      var point := SamplePoint(MonthNames[month.month], Rounded(height), Rounded(weight));
      assert point == PointAt(now, numMonths, i, draws[i]);
      result := result + [point];
      i := i + 1;
    }
    LastPointIsCurrentMonth(now, numMonths, draws[numMonths - 1]);
  }

  /** The last point is shifted by zero months, so it carries the current month. */
  lemma LastPointIsCurrentMonth(now: CalendarDate, count: nat, d: Draw)
    requires 1 <= count <= 12 && d.Valid()
    ensures PointAt(now, count, count - 1, d).month == MonthNames[now.month]
  {
    AddMonthsZero(now);
  }

  /** After rounding, point `i` stays within a twentieth of its noisy band. */
  lemma PointBounds(now: CalendarDate, count: nat, i: nat, d: Draw)
    requires i < count <= 12 && d.Valid()
    ensures var p := PointAt(now, count, i, d);
      && 129.65 + 0.7 * i as real <= p.height <= 130.35 + 0.7 * i as real
      && 39.75 + 0.2 * i as real <= p.weight <= 40.25 + 0.2 * i as real
  {
  }

  /**
   * The labels run in calendar order: point `i` lies `count - 1 - i` months
   * before `now`, or one month later when that month is too short for the day.
   */
  lemma PointMonthIndex(now: CalendarDate, count: nat, i: nat)
    requires i < count
    ensures var k := count - 1 - i;
      MonthIndex(now) - k <= MonthIndex(PointDate(now, count, i)) <= MonthIndex(now) - k + 1
    ensures now.day <= 28 ==> MonthIndex(PointDate(now, count, i)) == MonthIndex(now) - (count - 1 - i)
  {
    AddMonthsIndex(now, -(count - 1 - i));
  }

  // ---------------------------------------------------------------------
  // The label a point was meant to carry
  // ---------------------------------------------------------------------

  /** The number of the month `count - 1 - i` months before `now`'s month, counted on month numbers alone. */
  function IntendedMonth(now: CalendarDate, count: nat, i: nat): (m: nat)
    requires i < count
    ensures m < 12
  {
    (now.month - (count - 1 - i)) % 12
  }

  /** The label point `i` was meant to carry. */
  function IntendedLabel(now: CalendarDate, count: nat, i: nat): string
    requires i < count
  {
    MonthNames[IntendedMonth(now, count, i)]
  }

  /** A number written as twelve times a quotient plus a remainder below twelve has that remainder. */
  lemma ModTwelve(x: int, q: int, r: int)
    requires x == 12 * q + r && 0 <= r < 12
    ensures x % 12 == r
  {
  }

  /** The twelve month names are pairwise different. */
  lemma MonthNamesDistinct(a: nat, b: nat)
    requires a < 12 && b < 12 && a != b
    ensures MonthNames[a] != MonthNames[b]
  {
    assert MonthNames[a][0] != MonthNames[b][0] || MonthNames[a][1] != MonthNames[b][1]
      || MonthNames[a][2] != MonthNames[b][2];
  }

  /** Numbers less than twelve apart leave different remainders modulo twelve. */
  lemma DistinctRemainders(x: int, d: int)
    requires 0 < d < 12
    ensures x % 12 != (x + d) % 12
  {
    var a := x % 12;
    var q := x / 12;
    assert x == 12 * q + a;
    if a + d < 12 {
      ModTwelve(x + d, q, a + d);
    } else {
      ModTwelve(x + d, q + 1, a + d - 12);
    }
  }

  /** Within a year, the intended months are distinct. */
  lemma IntendedMonthsDistinct(now: CalendarDate, count: nat, i: nat, j: nat)
    requires i < j < count <= 12
    ensures IntendedMonth(now, count, i) != IntendedMonth(now, count, j)
  {
    var x := now.month - (count - 1 - i);
    assert now.month - (count - 1 - j) == x + (j - i);
    DistinctRemainders(x, j - i);
  }

  /** Within a year, the intended labels name distinct months. */
  lemma IntendedLabelsDistinct(now: CalendarDate, count: nat, i: nat, j: nat)
    requires i < j < count <= 12
    ensures IntendedLabel(now, count, i) != IntendedLabel(now, count, j)
  {
    IntendedMonthsDistinct(now, count, i, j);
    MonthNamesDistinct(IntendedMonth(now, count, i), IntendedMonth(now, count, j));
  }

  /** The last intended label is the current month. */
  lemma IntendedLastLabel(now: CalendarDate, count: nat)
    requires 1 <= count
    ensures IntendedLabel(now, count, count - 1) == MonthNames[now.month]
  {
    ModTwelve(now.month, 0, now.month);
  }

  /** On days up to the 28th no month spills, and the written labels are the intended ones. */
  lemma LabelsAgreeEarlyInMonth(now: CalendarDate, count: nat, i: nat)
    requires i < count && now.day <= 28
    ensures MonthName(PointDate(now, count, i)) == IntendedLabel(now, count, i)
  {
    var k := count - 1 - i;
    var r := PointDate(now, count, i);
    AddMonthsIndex(now, -k);
    assert r.year * 12 + r.month == now.year * 12 + now.month - k;
    ModTwelve(now.month - k, r.year - now.year, r.month);
  }

  lemma FirstMonthNames()
    ensures MonthNames[0] == "Jan" && MonthNames[1] == "Feb" && MonthNames[2] == "Mar"
  {
  }

  /** The days the three-month series from 31 March 2023 is labelled with. */
  lemma March31Dates()
    ensures var now: CalendarDate := Date(2023, 2, 31);
      && PointDate(now, 3, 0) == Date(2023, 0, 31)
      && PointDate(now, 3, 1) == Date(2023, 2, 3)
      && PointDate(now, 3, 2) == now
  {
    var now: CalendarDate := Date(2023, 2, 31);
    assert !IsLeapYear(2023) by { assert 2023 % 4 == 3; }
    assert DaysInMonth(2023, 1) == 28;
    assert PointDate(now, 3, 0) == SetMonth(now, 0) == Date(2023, 0, 31);
    assert PointDate(now, 3, 1) == SetMonth(now, 1) == Date(2023, 2, 3);
    AddMonthsZero(now);
  }

  /**
   * On 31 March the three-month series is labelled Jan, Mar, Mar: February
   * 31st spills into March 3rd, so February is skipped and March repeated.
   */
  lemma ThreeMonthsFromMarch31()
    ensures var now: CalendarDate := Date(2023, 2, 31);
      && MonthName(PointDate(now, 3, 0)) == "Jan"
      && MonthName(PointDate(now, 3, 1)) == "Mar"
      && MonthName(PointDate(now, 3, 2)) == "Mar"
      && IntendedLabel(now, 3, 1) == "Feb"
  {
    March31Dates();
    var now: CalendarDate := Date(2023, 2, 31);
    FirstMonthNames();
    ModTwelve(1, 0, 1);
    assert IntendedLabel(now, 3, 1) == MonthNames[1];
  }
}
