/**
 * The data behind the growth chart (components/dashboard/growth-chart.tsx):
 * a copy of the measurements sorted by date, one chart point per measurement
 * with a month-day label and a BMI, and the points that survive the
 * time-range filter.
 */
module GrowthChart {
  import opened Wrappers
  import opened Sequences
  import opened Calendar
  import opened JsNumbers

  /** A measurement as the chart receives it: the day of a date-only string, height in cm, weight in kg. */
  datatype Measurement = Measurement(date: CalendarDate, height: real, weight: real)

  /**
   * What `toLocaleDateString('en-US', { month: 'short', day: 'numeric' })`
   * shows, such as "Apr 15": the month and the day, without the year.
   */
  datatype Label = Label(month: int, day: int)

  function LabelOf(d: CalendarDate): Label {
    Label(d.month, d.day)
  }

  /** A point of `chartData`; its `date` field holds the label text, as in the source. */
  datatype ChartPoint = ChartPoint(date: Label, height: real, weight: real, bmi: JsNumber)

  /**
   * `Number((weight / ((height / 100) ** 2)).toFixed(1))`. Over exact reals the
   * quotient by the square is the same as dividing twice by `height / 100`,
   * which is how it is written here; a zero height divides by zero.
   */
  function Bmi(height: real, weight: real): (b: JsNumber)
    ensures height != 0.0 ==> b.Finite? && -0.05 <= b.value - weight / (height / 100.0) / (height / 100.0) <= 0.05
    ensures height != 0.0 && -ToFixedLimit < weight / (height / 100.0) / (height / 100.0) < ToFixedLimit ==>
      b == Finite(RoundToTenth(weight / (height / 100.0) / (height / 100.0)))
    ensures height == 0.0 ==> !b.Finite? && (b.NaN? <==> weight == 0.0)
  {
    var q := height / 100.0;
    if q == 0.0 then ToFixedOne(Divide(weight, 0.0))
    else ToFixedOne(Finite(weight / q / q))
  }

  /** The first sample measurement of a student's record: 142.5 cm and 35.2 kg give a BMI of 17.3. */
  lemma BmiExample()
    ensures Bmi(142.5, 35.2) == Finite(17.3)
  {
    var a := 35.2 / 1.425;
    assert a * 1.425 == 35.2;
    var x := a / 1.425;
    assert x * 1.425 == a;
    assert 24.65 < a < 24.71;
    assert 17.3 < x < 17.34;
    assert (10.0 * x + 0.5).Floor == 173;
  }

  // ---- the sort: `[...measurements].sort((a, b) => getTime(a) - getTime(b))` ----

  function DateKey(m: Measurement): int {
    Ordinal(m.date)
  }

  /** Each measurement is no later than the next. */
  predicate SortedByDate(s: seq<Measurement>) {
    forall i :: 0 < i < |s| ==> DateKey(s[i - 1]) <= DateKey(s[i])
  }

  /** `m` placed before the first element that is not earlier than it. */
  function InsertByDate(m: Measurement, s: seq<Measurement>): (r: seq<Measurement>)
    requires SortedByDate(s)
    ensures SortedByDate(r)
    ensures |r| == |s| + 1
    ensures multiset(r) == multiset(s) + multiset{m}
    ensures r[0] == m || (s != [] && r[0] == s[0])
  {
    if s == [] || DateKey(m) <= DateKey(s[0]) then
      SortedCons(m, s);
      [m] + s
    else
      assert SortedByDate(s[1..]);
      var rest := InsertByDate(m, s[1..]);
      assert s == [s[0]] + s[1..];
      assert DateKey(s[0]) <= DateKey(rest[0]);
      SortedCons(s[0], rest);
      assert multiset([s[0]] + rest) == multiset{s[0]} + multiset(rest);
      [s[0]] + rest
  }

  /** A measurement no later than the head of a sorted list extends it. */
  lemma SortedCons(m: Measurement, s: seq<Measurement>)
    requires SortedByDate(s) && (s == [] || DateKey(m) <= DateKey(s[0]))
    ensures SortedByDate([m] + s)
  {
    var r := [m] + s;
    forall i | 0 < i < |r|
      ensures DateKey(r[i - 1]) <= DateKey(r[i])
    {
      if i > 1 {
        assert r[i - 1] == s[i - 2] && r[i] == s[i - 1];
      }
    }
  }

  /**
   * The sorted copy. `Array.prototype.sort` is stable, so measurements of the
   * same day keep their input order (`SortByDateStable`); the input itself is
   * a value and stays as it was.
   */
  function SortByDate(s: seq<Measurement>): (r: seq<Measurement>)
    ensures SortedByDate(r)
    ensures |r| == |s|
    ensures multiset(r) == multiset(s)
  {
    if s == [] then []
    else
      assert s == [s[0]] + s[1..];
      InsertByDate(s[0], SortByDate(s[1..]))
  }

  function SameDay(k: int): Measurement -> bool {
    (m: Measurement) => DateKey(m) == k
  }

  lemma {:induction false} InsertByDateSameDay(m: Measurement, s: seq<Measurement>, k: int)
    requires SortedByDate(s)
    ensures Filter(InsertByDate(m, s), SameDay(k)) == (if DateKey(m) == k then [m] else []) + Filter(s, SameDay(k))
  {
    var P := SameDay(k);
    if s == [] || DateKey(m) <= DateKey(s[0]) {
      assert InsertByDate(m, s) == [m] + s;
      FilterCons(m, s, P);
    } else {
      var r := InsertByDate(m, s[1..]);
      assert InsertByDate(m, s) == [s[0]] + r;
      var a := if P(s[0]) then [s[0]] else [];
      var b := if P(m) then [m] else [];
      var rest := Filter(s[1..], P);
      FilterCons(s[0], r, P);
      InsertByDateSameDay(m, s[1..], k);
      assert Filter(InsertByDate(m, s), P) == a + (b + rest);
      FilterHead(s, P);
      if P(m) {
        assert a == [];
      } else {
        assert b == [];
      }
    }
  }

  /** Stability: the measurements of any one day appear in the sorted copy in their input order. */
  lemma {:induction false} SortByDateStable(s: seq<Measurement>, k: int)
    ensures Filter(SortByDate(s), SameDay(k)) == Filter(s, SameDay(k))
  {
    if s != [] {
      SortByDateStable(s[1..], k);
      InsertByDateSameDay(s[0], SortByDate(s[1..]), k);
    }
  }

  /** Input that is already in date order comes back unchanged. */
  lemma {:induction false} SortByDateSorted(s: seq<Measurement>)
    requires SortedByDate(s)
    ensures SortByDate(s) == s
  {
    if s != [] {
      SortByDateSorted(s[1..]);
      assert s == [s[0]] + s[1..];
    }
  }

  // ---- the map ----

  function ToPoint(m: Measurement): ChartPoint {
    ChartPoint(LabelOf(m.date), m.height, m.weight, Bmi(m.height, m.weight))
  }

  function ToPoints(s: seq<Measurement>): (r: seq<ChartPoint>)
    ensures |r| == |s|
    ensures forall i :: 0 <= i < |s| ==> r[i] == ToPoint(s[i])
  {
    if s == [] then [] else [ToPoint(s[0])] + ToPoints(s[1..])
  }

  /** `chartData`: one point per measurement, in date order. */
  function ChartData(raw: seq<Measurement>): (r: seq<ChartPoint>)
    ensures |r| == |raw|
  {
    ToPoints(SortByDate(raw))
  }

  /** Point `i` shows the label, height, weight and BMI of the `i`-th measurement in date order. */
  lemma ChartDataPointwise(raw: seq<Measurement>, i: nat)
    requires i < |raw|
    ensures var m := SortByDate(raw)[i];
      && ChartData(raw)[i].date == LabelOf(m.date) && ChartData(raw)[i].height == m.height
      && ChartData(raw)[i].weight == m.weight && ChartData(raw)[i].bmi == Bmi(m.height, m.weight)
  {
  }

  /** Every point comes from a measurement of the input, and every measurement gives a point. */
  lemma ChartDataFromMeasurements(raw: seq<Measurement>)
    ensures forall i :: 0 <= i < |ChartData(raw)| ==> exists j :: 0 <= j < |raw| && ChartData(raw)[i] == ToPoint(raw[j])
    ensures forall j :: 0 <= j < |raw| ==> ToPoint(raw[j]) in ChartData(raw)
  {
    var sorted := SortByDate(raw);
    forall i | 0 <= i < |ChartData(raw)| ensures exists j :: 0 <= j < |raw| && ChartData(raw)[i] == ToPoint(raw[j]) {
      assert sorted[i] in multiset(sorted);
      var j :| 0 <= j < |raw| && raw[j] == sorted[i];
      assert ChartData(raw)[i] == ToPoint(raw[j]);
    }
    forall j | 0 <= j < |raw| ensures ToPoint(raw[j]) in ChartData(raw) {
      assert raw[j] in multiset(raw);
      assert raw[j] in sorted;
      var i :| 0 <= i < |sorted| && sorted[i] == raw[j];
      assert ChartData(raw)[i] == ToPoint(raw[j]);
    }
  }

  // ---- the time range ----

  /** `let months = 6`, then "3m" sets 3, "6m" sets 6 and "1y" sets 12. */
  function RangeMonths(timeRange: string): (months: nat)
    ensures timeRange == "3m" ==> months == 3
    ensures timeRange == "1y" ==> months == 12
    ensures timeRange != "3m" && timeRange != "1y" ==> months == 6
  {
    var months := 6;
    var months := if timeRange == "3m" then 3 else months;
    var months := if timeRange == "6m" then 6 else months;
    if timeRange == "1y" then 12 else months
  }

  /**
   * `new Date(now.setMonth(now.getMonth() - months))`: the same time of day,
   * `months` calendar months back, with `setMonth`'s day spill.
   */
  function Cutoff(now: Instant, months: nat): (c: Instant)
    ensures c.ms == now.ms
    ensures MonthIndex(now.date) - months <= MonthIndex(c.date) <= MonthIndex(now.date) - months + 1
    ensures months >= 1 ==> Ordinal(c.date) < Ordinal(now.date)
  {
    AddMonthsIndex(now.date, -(months as int));
    AddMonthsBack(now.date, months);
    Instant(AddMonths(now.date, -(months as int)), now.ms)
  }

  // ---- the filter ----

  /** The position of the first measurement labelled `key`, or `|raw|` when there is none. */
  function FirstWithLabel(raw: seq<Measurement>, key: Label): (i: nat)
    ensures i <= |raw|
    ensures forall j :: 0 <= j < i ==> LabelOf(raw[j].date) != key
    ensures i < |raw| ==> LabelOf(raw[i].date) == key
  {
    if raw == [] then 0
    else if LabelOf(raw[0].date) == key then 0
    else 1 + FirstWithLabel(raw[1..], key)
  }

  /** `measurements.find(m => label(m) === key)`, on the unsorted input. */
  function FindByLabel(raw: seq<Measurement>, key: Label): (r: Option<Measurement>)
    ensures r.None? <==> forall j :: 0 <= j < |raw| ==> LabelOf(raw[j].date) != key
    ensures r.Some? ==> r.value in raw && LabelOf(r.value.date) == key
    ensures r.Some? ==> r.value == raw[FirstWithLabel(raw, key)]
  {
    var i := FirstWithLabel(raw, key);
    if i < |raw| then Some(raw[i]) else None
  }

  /**
   * The filter's test for a point: the first raw measurement with the
   * point's label must lie at or after the cutoff. Without one, the
   * comparison is with `new Date("")`, an Invalid Date, and fails.
   */
  function KeepPoint(raw: seq<Measurement>, cutoff: Instant, p: ChartPoint): (keep: bool)
    ensures keep <==>
      var first := FirstWithLabel(raw, p.date);
      first < |raw| && MidnightAtOrAfter(raw[first].date, cutoff)
  {
    match FindByLabel(raw, p.date)
    case None => false
    case Some(m) => MidnightAtOrAfter(m.date, cutoff)
  }

  function KeepFor(raw: seq<Measurement>, cutoff: Instant): ChartPoint -> bool {
    (p: ChartPoint) => KeepPoint(raw, cutoff, p)
  }

  /** `filteredData`: the chart points inside the selected range, in chart order. */
  function FilteredData(raw: seq<Measurement>, timeRange: string, now: Instant): (r: seq<ChartPoint>)
    ensures IsSubsequence(r, ChartData(raw))
    ensures timeRange == "all" ==> r == ChartData(raw)
    ensures timeRange != "all" ==>
      var cutoff := Cutoff(now, RangeMonths(timeRange));
      forall i :: 0 <= i < |ChartData(raw)| ==> (ChartData(raw)[i] in r <==> KeepPoint(raw, cutoff, ChartData(raw)[i]))
  {
    if timeRange == "all" then
      IsSubsequenceOfSelf(ChartData(raw));
      ChartData(raw)
    else
      var keep := KeepFor(raw, Cutoff(now, RangeMonths(timeRange)));
      FilterIsSubsequence(ChartData(raw), keep);
      FilterMembers(ChartData(raw), keep);
      Filter(ChartData(raw), keep)
  }

  /**
   * Outside "all", every copy of a kept point is shown and no copy of a
   * dropped one: two identical measurements give two identical points.
   */
  lemma FilteredDataCount(raw: seq<Measurement>, timeRange: string, now: Instant, p: ChartPoint)
    requires timeRange != "all"
    ensures var cutoff := Cutoff(now, RangeMonths(timeRange));
      multiset(FilteredData(raw, timeRange, now))[p] == if KeepPoint(raw, cutoff, p) then multiset(ChartData(raw))[p] else 0
  {
    var keep := KeepFor(raw, Cutoff(now, RangeMonths(timeRange)));
    assert FilteredData(raw, timeRange, now) == Filter(ChartData(raw), keep);
    FilterCount(ChartData(raw), keep, p);
  }

  /** The failing comparison with an Invalid Date never happens: every point's label is found. */
  lemma EveryPointFound(raw: seq<Measurement>, p: ChartPoint)
    requires p in ChartData(raw)
    ensures FindByLabel(raw, p.date).Some?
  {
    var i :| 0 <= i < |ChartData(raw)| && ChartData(raw)[i] == p;
    var m := SortByDate(raw)[i];
    assert m in multiset(SortByDate(raw));
    var j :| 0 <= j < |raw| && raw[j] == m;
    assert LabelOf(raw[j].date) == p.date;
  }

  /**
   * Outside "all", a point is shown exactly when the first measurement
   * sharing its month-day label lies at or after the cutoff.
   */
  lemma FilteredByFirstSameLabel(raw: seq<Measurement>, timeRange: string, now: Instant, p: ChartPoint)
    requires timeRange != "all" && p in ChartData(raw)
    ensures var first := FirstWithLabel(raw, p.date);
      && first < |raw|
      && (p in FilteredData(raw, timeRange, now) <==> MidnightAtOrAfter(raw[first].date, Cutoff(now, RangeMonths(timeRange))))
  {
    var cutoff := Cutoff(now, RangeMonths(timeRange));
    var first := FirstWithLabel(raw, p.date);
    EveryPointFound(raw, p);
    assert FindByLabel(raw, p.date) == Some(raw[first]);
    assert KeepPoint(raw, cutoff, p) <==> MidnightAtOrAfter(raw[first].date, cutoff);
    var i :| 0 <= i < |ChartData(raw)| && ChartData(raw)[i] == p;
    assert p in FilteredData(raw, timeRange, now) <==> KeepPoint(raw, cutoff, p);
  }

  /** Two points with the same month-day label are kept or dropped together. */
  lemma SameLabelSameDecision(raw: seq<Measurement>, timeRange: string, now: Instant, p: ChartPoint, q: ChartPoint)
    requires p in ChartData(raw) && q in ChartData(raw) && p.date == q.date
    ensures p in FilteredData(raw, timeRange, now) <==> q in FilteredData(raw, timeRange, now)
  {
    if timeRange != "all" {
      var i :| 0 <= i < |ChartData(raw)| && ChartData(raw)[i] == p;
      var j :| 0 <= j < |ChartData(raw)| && ChartData(raw)[j] == q;
    }
  }

  // ---- what the metric toggle changes ----

  datatype Metric = Height | Weight | Both

  /** What the chart draws: the data it is given and which of the two lines (with axis and target) appear. */
  datatype ChartView = ChartView(data: seq<ChartPoint>, heightLine: bool, weightLine: bool)

  function Render(raw: seq<Measurement>, metric: Metric, timeRange: string, now: Instant): (v: ChartView)
    ensures v.data == FilteredData(raw, timeRange, now)
    ensures v.heightLine <==> metric == Both || metric == Height
    ensures v.weightLine <==> metric == Both || metric == Weight
  {
    ChartView(FilteredData(raw, timeRange, now), metric == Both || metric == Height, metric == Both || metric == Weight)
  }

  /** The metric toggle chooses lines only; the plotted data is the same for every choice. */
  lemma MetricIndependent(raw: seq<Measurement>, m1: Metric, m2: Metric, timeRange: string, now: Instant)
    ensures Render(raw, m1, timeRange, now).data == Render(raw, m2, timeRange, now).data
  {
  }

  // ---- the filter as evidently intended ----

  function OnOrAfter(cutoff: Instant): Measurement -> bool {
    (m: Measurement) => MidnightAtOrAfter(m.date, cutoff)
  }

  /** Each measurement tested on its own date, then mapped to its point. */
  function IntendedFilteredData(raw: seq<Measurement>, timeRange: string, now: Instant): (r: seq<ChartPoint>)
    ensures timeRange == "all" ==> r == ChartData(raw)
  {
    if timeRange == "all" then ChartData(raw)
    else ToPoints(Filter(SortByDate(raw), OnOrAfter(Cutoff(now, RangeMonths(timeRange)))))
  }

  lemma {:induction false} ToPointsSubsequence(a: seq<Measurement>, b: seq<Measurement>)
    requires IsSubsequence(a, b)
    ensures IsSubsequence(ToPoints(a), ToPoints(b))
    decreases |b|
  {
    if b != [] {
      assert ToPoints(b)[1..] == ToPoints(b[1..]);
      if IsSubsequence(a, b[1..]) {
        ToPointsSubsequence(a, b[1..]);
      } else {
        assert ToPoints(a)[1..] == ToPoints(a[1..]);
        ToPointsSubsequence(a[1..], b[1..]);
      }
    }
  }

  /** The intended filter shows a subsequence of the chart: the points of exactly the measurements from the cutoff on. */
  lemma IntendedKeepsOwnDate(raw: seq<Measurement>, timeRange: string, now: Instant)
    requires timeRange != "all"
    ensures IsSubsequence(IntendedFilteredData(raw, timeRange, now), ChartData(raw))
    ensures var cutoff := Cutoff(now, RangeMonths(timeRange));
      forall j :: 0 <= j < |raw| && MidnightAtOrAfter(raw[j].date, cutoff) ==> ToPoint(raw[j]) in IntendedFilteredData(raw, timeRange, now)
    ensures var cutoff := Cutoff(now, RangeMonths(timeRange));
      forall i :: 0 <= i < |IntendedFilteredData(raw, timeRange, now)| ==>
        exists j :: 0 <= j < |raw| && IntendedFilteredData(raw, timeRange, now)[i] == ToPoint(raw[j]) && MidnightAtOrAfter(raw[j].date, cutoff)
  {
    IntendedSubsequence(raw, timeRange, now);
    InRangePointsKept(raw, timeRange, now);
    KeptPointsInRange(raw, timeRange, now);
  }

  lemma IntendedSubsequence(raw: seq<Measurement>, timeRange: string, now: Instant)
    requires timeRange != "all"
    ensures IsSubsequence(IntendedFilteredData(raw, timeRange, now), ChartData(raw))
  {
    var cutoff := Cutoff(now, RangeMonths(timeRange));
    var sorted := SortByDate(raw);
    var kept := Filter(sorted, OnOrAfter(cutoff));
    FilterIsSubsequence(sorted, OnOrAfter(cutoff));
    ToPointsSubsequence(kept, sorted);
  }

  /** Every measurement from the cutoff on has its point kept by the intended filter. */
  lemma InRangePointsKept(raw: seq<Measurement>, timeRange: string, now: Instant)
    requires timeRange != "all"
    ensures var cutoff := Cutoff(now, RangeMonths(timeRange));
      forall j :: 0 <= j < |raw| && MidnightAtOrAfter(raw[j].date, cutoff) ==> ToPoint(raw[j]) in IntendedFilteredData(raw, timeRange, now)
  {
    var cutoff := Cutoff(now, RangeMonths(timeRange));
    var sorted := SortByDate(raw);
    var kept := Filter(sorted, OnOrAfter(cutoff));
    var r := IntendedFilteredData(raw, timeRange, now);
    assert r == ToPoints(kept);
    FilterMembers(sorted, OnOrAfter(cutoff));
    forall j | 0 <= j < |raw| && MidnightAtOrAfter(raw[j].date, cutoff)
      ensures ToPoint(raw[j]) in r
    {
      assert raw[j] in multiset(raw);
      var k :| 0 <= k < |sorted| && sorted[k] == raw[j];
      assert raw[j] in kept;
      var i :| 0 <= i < |kept| && kept[i] == raw[j];
      assert r[i] == ToPoint(raw[j]);
    }
  }

  /** Every point the intended filter keeps is the point of a measurement from the cutoff on. */
  lemma KeptPointsInRange(raw: seq<Measurement>, timeRange: string, now: Instant)
    requires timeRange != "all"
    ensures var cutoff := Cutoff(now, RangeMonths(timeRange));
      forall i :: 0 <= i < |IntendedFilteredData(raw, timeRange, now)| ==>
        exists j :: 0 <= j < |raw| && IntendedFilteredData(raw, timeRange, now)[i] == ToPoint(raw[j]) && MidnightAtOrAfter(raw[j].date, cutoff)
  {
    var cutoff := Cutoff(now, RangeMonths(timeRange));
    var sorted := SortByDate(raw);
    var kept := Filter(sorted, OnOrAfter(cutoff));
    var r := IntendedFilteredData(raw, timeRange, now);
    assert r == ToPoints(kept);
    FilterMembers(sorted, OnOrAfter(cutoff));
    forall i | 0 <= i < |r|
      ensures exists j :: 0 <= j < |raw| && r[i] == ToPoint(raw[j]) && MidnightAtOrAfter(raw[j].date, cutoff)
    {
      assert OnOrAfter(cutoff)(kept[i]);
      assert kept[i] in sorted;
      assert kept[i] in multiset(sorted);
      var j :| 0 <= j < |raw| && raw[j] == kept[i];
      assert r[i] == ToPoint(raw[j]);
    }
  }

  /** Measurements that share a month-day share the date: no day repeats in another year. */
  predicate LabelsDetermineDates(raw: seq<Measurement>) {
    forall i, j :: 0 <= i < |raw| && 0 <= j < |raw| && LabelOf(raw[i].date) == LabelOf(raw[j].date) ==> raw[i].date == raw[j].date
  }

  /** Filtering the points is filtering the measurements, when the tests agree measurement by measurement. */
  lemma {:induction false} FilterToPoints(s: seq<Measurement>, keep: ChartPoint -> bool, own: Measurement -> bool)
    requires forall i :: 0 <= i < |s| ==> keep(ToPoint(s[i])) == own(s[i])
    ensures Filter(ToPoints(s), keep) == ToPoints(Filter(s, own))
  {
    if s != [] {
      assert ToPoints(s)[1..] == ToPoints(s[1..]);
      FilterToPoints(s[1..], keep, own);
    }
  }

  /** When no month-day repeats across years, the label lookup gives the intended result. */
  lemma FilterAgreesWithoutRepeatedDays(raw: seq<Measurement>, timeRange: string, now: Instant)
    requires LabelsDetermineDates(raw)
    ensures FilteredData(raw, timeRange, now) == IntendedFilteredData(raw, timeRange, now)
  {
    if timeRange != "all" {
      var cutoff := Cutoff(now, RangeMonths(timeRange));
      var sorted := SortByDate(raw);
      forall i | 0 <= i < |sorted|
        ensures KeepFor(raw, cutoff)(ToPoint(sorted[i])) == OnOrAfter(cutoff)(sorted[i])
      {
        var m := sorted[i];
        assert m in multiset(sorted);
        var j :| 0 <= j < |raw| && raw[j] == m;
        var k := FirstWithLabel(raw, LabelOf(m.date));
        assert k <= j;
        assert raw[k].date == m.date;
        assert FindByLabel(raw, LabelOf(m.date)) == Some(raw[k]);
        assert ToPoint(m).date == LabelOf(m.date);
      }
      FilterToPoints(sorted, KeepFor(raw, cutoff), OnOrAfter(cutoff));
    }
  }

  /** 15 April 2022 and 15 April 2023: one month-day in two years. */
  function YearApart(): seq<Measurement> {
    [Measurement(Date(2022, 3, 15), 140.0, 33.0), Measurement(Date(2023, 3, 15), 142.5, 35.2)]
  }

  /** The example's range starts on 20 January 2023, three months before 20 April 2023. */
  lemma YearApartCutoff()
    ensures Cutoff(Instant(Date(2023, 3, 20), 0), 3) == Instant(Date(2023, 0, 20), 0)
  {
    assert DaysInMonth(2023, 0) == 31;
    assert SetMonth(Date(2023, 3, 20), 0) == Date(2023, 0, 20);
  }

  /** The example is already in date order, so the sort leaves it as it is. */
  lemma YearApartSorted()
    ensures SortByDate(YearApart()) == YearApart()
  {
    var raw := YearApart();
    assert DateKey(raw[0]) < DateKey(raw[1]);
    SortByDateSorted(raw);
  }

  /** The lookup of "Apr 15" finds the 2022 measurement, which lies before the cutoff; the 2023 one lies after it. */
  lemma YearApartFacts()
    ensures FindByLabel(YearApart(), Label(3, 15)) == Some(YearApart()[0])
    ensures !MidnightAtOrAfter(YearApart()[0].date, Instant(Date(2023, 0, 20), 0))
    ensures MidnightAtOrAfter(YearApart()[1].date, Instant(Date(2023, 0, 20), 0))
  {
    var raw := YearApart();
    assert LabelOf(raw[0].date) == Label(3, 15);
    assert FirstWithLabel(raw, Label(3, 15)) == 0;
  }

  /**
   * The lookup loses the year: both points carry the label "Apr 15", so
   * with a three-month range on 20 April 2023 both are judged by the 2022
   * measurement, and the 2023 one disappears.
   */
  lemma LabelLookupLosesYear()
    ensures FilteredData(YearApart(), "3m", Instant(Date(2023, 3, 20), 0)) == []
  {
    assert RangeMonths("3m") == 3;
    YearApartDropped();
    NothingKept(YearApart(), "3m", Instant(Date(2023, 3, 20), 0));
  }

  /** When the test drops every point, the filtered data is empty. */
  lemma NothingKept(raw: seq<Measurement>, timeRange: string, now: Instant)
    requires timeRange != "all"
    requires var cutoff := Cutoff(now, RangeMonths(timeRange));
      forall i :: 0 <= i < |ChartData(raw)| ==> !KeepFor(raw, cutoff)(ChartData(raw)[i])
    ensures FilteredData(raw, timeRange, now) == []
  {
    FilterAllOrNone(ChartData(raw), KeepFor(raw, Cutoff(now, RangeMonths(timeRange))));
  }

  lemma YearApartDropped()
    ensures var raw := YearApart();
      var cutoff := Cutoff(Instant(Date(2023, 3, 20), 0), 3);
      forall i :: 0 <= i < |ChartData(raw)| ==> !KeepFor(raw, cutoff)(ChartData(raw)[i])
  {
    var raw := YearApart();
    YearApartCutoff();
    YearApartSorted();
    YearApartFacts();
    var points := ChartData(raw);
    assert points[0].date == Label(3, 15) && points[1].date == Label(3, 15);
  }

  /** The intended filter keeps the 2023 measurement of the same example. */
  lemma IntendedKeepsLaterYear()
    ensures IntendedFilteredData(YearApart(), "3m", Instant(Date(2023, 3, 20), 0)) == [ToPoint(YearApart()[1])]
  {
    var raw := YearApart();
    YearApartSorted();
    YearApartOwnDates();
    assert ToPoints([raw[1]]) == [ToPoint(raw[1])];
  }

  lemma YearApartOwnDates()
    ensures Filter(YearApart(), OnOrAfter(Cutoff(Instant(Date(2023, 3, 20), 0), 3))) == [YearApart()[1]]
  {
    var raw := YearApart();
    var own := OnOrAfter(Cutoff(Instant(Date(2023, 3, 20), 0), 3));
    YearApartCutoff();
    YearApartFacts();
    assert !own(raw[0]) && own(raw[1]);
    assert raw == [raw[0]] + [raw[1]];
    FilterCons(raw[0], [raw[1]], own);
    FilterCons(raw[1], [], own);
  }
}
