/**
 * The tables derived for the monthly chart: the per-month summary of the records,
 * its outer merge with the goals, and the two long-form series views.
 */
module Derivations {
  import opened Wrappers
  import Lex
  import opened Calendar
  import opened Records
  import ST = SortedTable
  import opened MonthlyGoals

  /** Line 143, `df["日付"].dt.to_period("M")` then `astype(str)`: the month label of a record, None for NaT. */
  function MonthKey(r: Record): (k: Option<string>)
    ensures k.None? <==> r.date.None?
    ensures k.Some? ==> |k.value| == 7
  {
    if r.date.Some? then Some(Label(MonthOf(r.date.value))) else None
  }

  /** Two dated records get the same month label exactly when they fall in the same calendar month. */
  lemma MonthKeyGroupsByMonth(a: Record, b: Record)
    requires a.date.Some? && b.date.Some?
    ensures MonthKey(a) == MonthKey(b) <==> MonthOf(a.date.value) == MonthOf(b.date.value)
  {
    LabelOrder(MonthOf(a.date.value), MonthOf(b.date.value));
  }

  function Sum(s: seq<real>): real
  {
    if s == [] then 0.0 else Sum(s[..|s| - 1]) + s[|s| - 1]
  }

  function Mean(s: seq<real>): real
    requires s != []
  {
    Sum(s) / |s| as real
  }

  /** The weights of the records of month `k`, in record order. */
  function WeightsIn(records: seq<Record>, k: string): (w: seq<real>)
  {
    if records == [] then []
    else
      var last := records[|records| - 1];
      WeightsIn(records[..|records| - 1], k) + (if MonthKey(last) == Some(k) then [last.weight] else [])
  }

  /** The calories of the records of month `k`, in record order. */
  function CaloriesIn(records: seq<Record>, k: string): (c: seq<real>)
    ensures |c| == |WeightsIn(records, k)|
  {
    if records == [] then []
    else
      var last := records[|records| - 1];
      CaloriesIn(records[..|records| - 1], k) + (if MonthKey(last) == Some(k) then [last.calories] else [])
  }

  /** The months that have at least one dated record. */
  function DatedMonths(records: seq<Record>): set<string>
  {
    set i | 0 <= i < |records| && MonthKey(records[i]).Some? :: MonthKey(records[i]).value
  }

  lemma DatedMonthsSnoc(records: seq<Record>)
    requires records != []
    ensures var init, last := records[..|records| - 1], records[|records| - 1];
      DatedMonths(records) == DatedMonths(init) + (if MonthKey(last).Some? then {MonthKey(last).value} else {})
  {
    var init := records[..|records| - 1];
    forall k | k in DatedMonths(records)
      ensures k in DatedMonths(init) || MonthKey(records[|records| - 1]) == Some(k)
    {
      var i :| 0 <= i < |records| && MonthKey(records[i]) == Some(k);
      if i < |records| - 1 { assert init[i] == records[i]; }
    }
    forall k | k in DatedMonths(init) ensures k in DatedMonths(records) {
      var i :| 0 <= i < |init| && MonthKey(init[i]) == Some(k);
      assert records[i] == init[i];
    }
  }

  /** Running count, weight sum and calorie sum of one month's group. */
  datatype Acc = Acc(count: nat, weightSum: real, calorieSum: real)

  function AddRecord(o: Option<Acc>, r: Record): Acc
  {
    match o
    case None => Acc(1, r.weight, r.calories)
    case Some(a) => Acc(a.count + 1, a.weightSum + r.weight, a.calorieSum + r.calories)
  }

  /** The group of month `k` as a one-pass accumulation would have it. */
  function GroupOf(records: seq<Record>, k: string): Acc
  {
    Acc(|WeightsIn(records, k)|, Sum(WeightsIn(records, k)), Sum(CaloriesIn(records, k)))
  }

  lemma SumSnoc(s: seq<real>, x: real)
    ensures Sum(s + [x]) == Sum(s) + x
  {
    assert (s + [x])[..|s|] == s;
  }

  /** How one more record changes the group of month `k`. */
  lemma GroupSnoc(records: seq<Record>, k: string)
    requires records != []
    ensures var init, last := records[..|records| - 1], records[|records| - 1];
      GroupOf(records, k) ==
        if MonthKey(last) == Some(k) then
          AddRecord(if k in DatedMonths(init) then Some(GroupOf(init, k)) else None, last)
        else GroupOf(init, k)
  {
    var init, last := records[..|records| - 1], records[|records| - 1];
    var w, c := WeightsIn(init, k), CaloriesIn(init, k);
    if MonthKey(last) == Some(k) {
      assert WeightsIn(records, k) == w + [last.weight];
      assert CaloriesIn(records, k) == c + [last.calories];
      SumSnoc(w, last.weight);
      SumSnoc(c, last.calories);
      if k !in DatedMonths(init) {
        WeightsEmptyOutside(init, k);
        assert w + [last.weight] == [last.weight] && c + [last.calories] == [last.calories];
      }
    } else {
      assert WeightsIn(records, k) == w + [];
      assert CaloriesIn(records, k) == c + [];
      assert w + [] == w && c + [] == c;
    }
  }

  /** Line 144, `groupby("年月")`, accumulated in one pass; records without a month are skipped. */
  function Accumulate(records: seq<Record>): (m: ST.Table<Acc>)
    ensures ST.Sorted(m)
    ensures forall k :: ST.Get(m, k) == if k in DatedMonths(records) then Some(GroupOf(records, k)) else None
    ensures forall i :: 0 <= i < |m| ==> m[i].1.count > 0
  {
    if records == [] then []
    else
      var init, last := records[..|records| - 1], records[|records| - 1];
      var prev := Accumulate(init);
      DatedMonthsSnoc(records);
      var m := if MonthKey(last).None? then prev else ST.Upsert(prev, MonthKey(last).value, o => AddRecord(o, last));
      assert forall k :: ST.Get(m, k) == if k in DatedMonths(records) then Some(GroupOf(records, k)) else None by {
        forall k ensures ST.Get(m, k) == if k in DatedMonths(records) then Some(GroupOf(records, k)) else None {
          GroupSnoc(records, k);
        }
      }
      assert forall i :: 0 <= i < |m| ==> m[i].1.count > 0 by {
        forall i | 0 <= i < |m| ensures m[i].1.count > 0 {
          ST.GetAt(m, i);
        }
      }
      m
  }

  /** A month without dated records has no weights and no calories. */
  lemma {:induction false} WeightsEmptyOutside(records: seq<Record>, k: string)
    requires k !in DatedMonths(records)
    ensures WeightsIn(records, k) == [] && CaloriesIn(records, k) == []
  {
    if records != [] {
      DatedMonthsSnoc(records);
      WeightsEmptyOutside(records[..|records| - 1], k);
    }
  }

  /** A month with a dated record has at least one weight. */
  lemma {:induction false} WeightsNonEmptyInside(records: seq<Record>, k: string)
    requires k in DatedMonths(records)
    ensures WeightsIn(records, k) != []
  {
    DatedMonthsSnoc(records);
    var init := records[..|records| - 1];
    if MonthKey(records[|records| - 1]) != Some(k) {
      WeightsNonEmptyInside(init, k);
    }
  }

  /** One row of `monthly_summary` (line 144): mean weight and total calories of a month. */
  datatype SummaryRow = SummaryRow(monthLabel: string, weight: real, calories: real)

  /** Lines 143-145, `monthly_summary`. */
  function MonthlySummary(records: seq<Record>): (r: seq<SummaryRow>)
    ensures |r| == |Accumulate(records)|
  {
    var m := Accumulate(records);
    seq(|m|, i requires 0 <= i < |m| => SummaryRow(m[i].0, m[i].1.weightSum / m[i].1.count as real, m[i].1.calorieSum))
  }

  /** The summary is in ascending month order, each month once. */
  lemma MonthlySummarySorted(records: seq<Record>)
    ensures var r := MonthlySummary(records);
      forall i, j :: 0 <= i < j < |r| ==> Lex.Less(r[i].monthLabel, r[j].monthLabel)
  {
  }

  /** Each summary row is a month with a dated record, with the mean of its weights and the sum of its calories. */
  lemma MonthlySummaryRows(records: seq<Record>)
    ensures var r := MonthlySummary(records);
      forall i :: 0 <= i < |r| ==>
        && r[i].monthLabel in DatedMonths(records)
        && WeightsIn(records, r[i].monthLabel) != []
        && r[i].weight == Mean(WeightsIn(records, r[i].monthLabel))
        && r[i].calories == Sum(CaloriesIn(records, r[i].monthLabel))
  {
    var m := Accumulate(records);
    var r := MonthlySummary(records);
    forall i | 0 <= i < |r|
      ensures r[i].monthLabel in DatedMonths(records)
      ensures WeightsIn(records, r[i].monthLabel) != []
      ensures r[i].weight == Mean(WeightsIn(records, r[i].monthLabel))
      ensures r[i].calories == Sum(CaloriesIn(records, r[i].monthLabel))
    {
      ST.GetAt(m, i);
      WeightsNonEmptyInside(records, m[i].0);
    }
  }

  /** Every month with a dated record has a summary row. */
  lemma MonthlySummaryComplete(records: seq<Record>)
    ensures var r := MonthlySummary(records);
      forall k :: k in DatedMonths(records) ==> exists i :: 0 <= i < |r| && r[i].monthLabel == k
  {
    var m := Accumulate(records);
    var r := MonthlySummary(records);
    forall k | k in DatedMonths(records) ensures exists i :: 0 <= i < |r| && r[i].monthLabel == k {
      var i :| 0 <= i < |m| && m[i] == (k, GroupOf(records, k));
      assert r[i].monthLabel == k;
    }
  }

  /** An empty record table gives an empty summary. */
  lemma EmptySummary()
    ensures MonthlySummary([]) == []
  {
  }

  /** The last row whose label is `k`, if there is one: how either side of the merge is looked up. */
  function FindLast<T>(rows: seq<T>, labelOf: T -> string, k: string): (r: Option<T>)
    ensures r.Some? <==> exists j :: 0 <= j < |rows| && labelOf(rows[j]) == k
    ensures r.Some? ==> r.value in rows && labelOf(r.value) == k
  {
    if rows == [] then None
    else if labelOf(rows[|rows| - 1]) == k then Some(rows[|rows| - 1])
    else
      var r := FindLast(rows[..|rows| - 1], labelOf, k);
      assert forall j :: 0 <= j < |rows| - 1 ==> rows[..|rows| - 1][j] == rows[j];
      r
  }

  function SummaryLabel(s: SummaryRow): string
  {
    s.monthLabel
  }

  function GoalLabel(g: GoalRow): string
  {
    g.monthLabel
  }

  /** The summary row of month `k`, if there is one. */
  function FindSummary(summary: seq<SummaryRow>, k: string): Option<SummaryRow>
  {
    FindLast(summary, SummaryLabel, k)
  }

  /** The goal row of month `k`, if there is one. */
  function FindGoal(goals: seq<GoalRow>, k: string): Option<GoalRow>
  {
    FindLast(goals, GoalLabel, k)
  }

  /** The non-key columns of a merged row; None is the null of the side a month is missing from. */
  datatype Joined = Joined(weight: Option<real>, calories: Option<real>, weightTarget: Option<real>, calorieTarget: Option<real>)

  const NoSide := Joined(None, None, None, None)

  function WithActual(o: Option<Joined>, s: SummaryRow): Joined
  {
    o.GetOr(NoSide).(weight := Some(s.weight), calories := Some(s.calories))
  }

  function WithGoal(o: Option<Joined>, g: GoalRow): Joined
  {
    o.GetOr(NoSide).(weightTarget := Some(g.weightTarget), calorieTarget := Some(g.calorieTarget))
  }

  /** The actual columns of month `k` as the merge fills them. */
  function ActualSide(summary: seq<SummaryRow>, k: string): Joined
  {
    match FindSummary(summary, k)
    case None => NoSide
    case Some(s) => NoSide.(weight := Some(s.weight), calories := Some(s.calories))
  }

  /** The joined columns of month `k`: its summary values and its goal values, null where missing. */
  function JoinedAt(summary: seq<SummaryRow>, goals: seq<GoalRow>, k: string): Joined
  {
    match FindGoal(goals, k)
    case None => ActualSide(summary, k)
    case Some(g) => ActualSide(summary, k).(weightTarget := Some(g.weightTarget), calorieTarget := Some(g.calorieTarget))
  }

  predicate InEither(summary: seq<SummaryRow>, goals: seq<GoalRow>, k: string)
  {
    FindSummary(summary, k).Some? || FindGoal(goals, k).Some?
  }

  /** The left side of the merge: one entry per summary month. */
  function JoinActuals(summary: seq<SummaryRow>): (m: ST.Table<Joined>)
    ensures ST.Sorted(m)
    ensures forall k :: ST.Get(m, k) == if FindSummary(summary, k).Some? then Some(ActualSide(summary, k)) else None
  {
    if summary == [] then []
    else
      var last := summary[|summary| - 1];
      var prev := JoinActuals(summary[..|summary| - 1]);
      ST.Upsert(prev, last.monthLabel, o => WithActual(o, last))
  }

  /** Both sides of the merge: the goal rows upserted into the actual entries. */
  function JoinAll(summary: seq<SummaryRow>, goals: seq<GoalRow>): (m: ST.Table<Joined>)
    ensures ST.Sorted(m)
    ensures forall k :: ST.Get(m, k) == if InEither(summary, goals, k) then Some(JoinedAt(summary, goals, k)) else None
  {
    if goals == [] then JoinActuals(summary)
    else
      var last := goals[|goals| - 1];
      var prev := JoinAll(summary, goals[..|goals| - 1]);
      ST.Upsert(prev, last.monthLabel, o => WithGoal(o, last))
  }

  /** One row of `merged` (line 154). */
  datatype MergedRow = MergedRow(monthLabel: string, weight: Option<real>, calories: Option<real>,
                                 weightTarget: Option<real>, calorieTarget: Option<real>)

  /** Line 154, `pd.merge(monthly_summary, goals_df, on="年月", how="outer").sort_values("年月")`. */
  function MergeOuter(summary: seq<SummaryRow>, goals: seq<GoalRow>): (r: seq<MergedRow>)
    ensures |r| == |JoinAll(summary, goals)|
  {
    var m := JoinAll(summary, goals);
    seq(|m|, i requires 0 <= i < |m| =>
      MergedRow(m[i].0, m[i].1.weight, m[i].1.calories, m[i].1.weightTarget, m[i].1.calorieTarget))
  }

  /** The merge is in ascending month order, each month once. */
  lemma MergeOuterSorted(summary: seq<SummaryRow>, goals: seq<GoalRow>)
    ensures var r := MergeOuter(summary, goals);
      forall i, j :: 0 <= i < j < |r| ==> Lex.Less(r[i].monthLabel, r[j].monthLabel)
  {
  }

  /** Each merged row is a month of either side, carrying that month's values from both sides, null where a side lacks it. */
  lemma MergeOuterRows(summary: seq<SummaryRow>, goals: seq<GoalRow>)
    ensures var r := MergeOuter(summary, goals);
      forall i :: 0 <= i < |r| ==>
        var k, a := r[i].monthLabel, JoinedAt(summary, goals, r[i].monthLabel);
        && InEither(summary, goals, k)
        && r[i] == MergedRow(k, a.weight, a.calories, a.weightTarget, a.calorieTarget)
  {
    var m := JoinAll(summary, goals);
    var r := MergeOuter(summary, goals);
    forall i | 0 <= i < |r|
      ensures InEither(summary, goals, r[i].monthLabel)
      ensures var a := JoinedAt(summary, goals, r[i].monthLabel);
        r[i] == MergedRow(r[i].monthLabel, a.weight, a.calories, a.weightTarget, a.calorieTarget)
    {
      ST.GetAt(m, i);
    }
  }

  /** Every month of either side has a merged row: nothing is dropped. */
  lemma MergeOuterComplete(summary: seq<SummaryRow>, goals: seq<GoalRow>, k: string)
    requires InEither(summary, goals, k)
    ensures var r := MergeOuter(summary, goals);
      var a := JoinedAt(summary, goals, k);
      exists i :: 0 <= i < |r| && r[i] == MergedRow(k, a.weight, a.calories, a.weightTarget, a.calorieTarget)
  {
    var m := JoinAll(summary, goals);
    var r := MergeOuter(summary, goals);
    var i :| 0 <= i < |m| && m[i] == (k, JoinedAt(summary, goals, k));
    assert r[i].monthLabel == k;
  }

  /** One row of a melted frame (lines 159 and 182): month, series name, value. */
  datatype LongRow = LongRow(monthLabel: string, series: string, value: Option<real>)

  const ActualWeightSeries := "体重_実績"
  const GoalWeightSeries := "体重_目標"
  const ActualCalorieSeries := "カロリー"
  const GoalCalorieSeries := "カロリー目標"

  /** The rows one value column contributes to a melt, in the frame's row order. */
  function MeltColumn(merged: seq<MergedRow>, series: string, column: MergedRow -> Option<real>): (r: seq<LongRow>)
    ensures |r| == |merged|
    ensures forall i :: 0 <= i < |r| ==> r[i] == LongRow(merged[i].monthLabel, series, column(merged[i]))
  {
    if merged == [] then []
    else [LongRow(merged[0].monthLabel, series, column(merged[0]))] + MeltColumn(merged[1..], series, column)
  }

  /** Lines 157-159, `df_weight_long`: the actual-weight series for every month, then the goal-weight series. */
  function WeightLong(merged: seq<MergedRow>): (r: seq<LongRow>)
    ensures |r| == 2 * |merged|
    ensures forall i :: 0 <= i < |merged| ==>
      && r[i] == LongRow(merged[i].monthLabel, ActualWeightSeries, merged[i].weight)
      && r[|merged| + i] == LongRow(merged[i].monthLabel, GoalWeightSeries, merged[i].weightTarget)
  {
    MeltColumn(merged, ActualWeightSeries, (m: MergedRow) => m.weight) + MeltColumn(merged, GoalWeightSeries, (m: MergedRow) => m.weightTarget)
  }

  /** Lines 181-182, `df_cal_long`: the actual-calorie series for every month, then the goal-calorie series. */
  function CalorieLong(merged: seq<MergedRow>): (r: seq<LongRow>)
    ensures |r| == 2 * |merged|
    ensures forall i :: 0 <= i < |merged| ==>
      && r[i] == LongRow(merged[i].monthLabel, ActualCalorieSeries, merged[i].calories)
      && r[|merged| + i] == LongRow(merged[i].monthLabel, GoalCalorieSeries, merged[i].calorieTarget)
  {
    MeltColumn(merged, ActualCalorieSeries, (m: MergedRow) => m.calories) + MeltColumn(merged, GoalCalorieSeries, (m: MergedRow) => m.calorieTarget)
  }

  /**
   * Lines 143-154 end to end: every window month is in the merged table with its goal values,
   * and a window month without records has null actuals rather than being dropped.
   */
  lemma MergedKeepsGoalMonths(records: seq<Record>, goals: seq<GoalRow>, k: int)
    requires IsWindowTable(goals) && 0 <= k < |goals|
    ensures var merged := MergeOuter(MonthlySummary(records), goals);
      exists i :: 0 <= i < |merged| && merged[i].monthLabel == Window()[k] &&
        merged[i].weightTarget == Some(goals[k].weightTarget) &&
        merged[i].calorieTarget == Some(goals[k].calorieTarget) &&
        (Window()[k] !in DatedMonths(records) ==> merged[i].weight.None? && merged[i].calories.None?)
  {
    var summary := MonthlySummary(records);
    var l := Window()[k];
    assert goals[k].monthLabel == l;
    forall j | 0 <= j < |goals| && goals[j].monthLabel == l ensures j == k {
      if j != k { WindowDistinct(j, k); }
    }
    assert FindGoal(goals, l) == Some(goals[k]);
    if l !in DatedMonths(records) {
      MonthlySummaryRows(records);
      assert FindSummary(summary, l).None?;
    }
    MergeOuterComplete(summary, goals, l);
  }

  lemma AtMostOneRowPerLabel(r: seq<SummaryRow>, l: string)
    requires forall i, j :: 0 <= i < j < |r| ==> Lex.Less(r[i].monthLabel, r[j].monthLabel)
    requires forall i :: 0 <= i < |r| ==> r[i].monthLabel == l
    ensures |r| <= 1
  {
    assert |r| >= 2 ==> Lex.Less(r[0].monthLabel, r[1].monthLabel) && r[0].monthLabel == r[1].monthLabel == l;
    Lex.Irreflexive(l);
  }

  lemma OneMonthDated(records: seq<Record>, l: string)
    requires records != []
    requires forall i :: 0 <= i < |records| ==> MonthKey(records[i]) == Some(l)
    ensures DatedMonths(records) == {l}
  {
    assert MonthKey(records[0]) == Some(l);
  }

  lemma OneMonthSummaryLabels(records: seq<Record>, l: string)
    requires DatedMonths(records) == {l}
    ensures forall i :: 0 <= i < |MonthlySummary(records)| ==> MonthlySummary(records)[i].monthLabel == l
  {
    MonthlySummaryRows(records);
  }

  lemma OneMonthSummaryShape(records: seq<Record>, l: string)
    requires records != []
    requires forall i :: 0 <= i < |records| ==> MonthKey(records[i]) == Some(l)
    ensures |MonthlySummary(records)| == 1 && MonthlySummary(records)[0].monthLabel == l
  {
    var r := MonthlySummary(records);
    OneMonthDated(records, l);
    OneMonthSummaryLabels(records, l);
    MonthlySummarySorted(records);
    AtMostOneRowPerLabel(r, l);
    MonthlySummaryComplete(records);
    assert l in DatedMonths(records);
  }

  /** Records that all fall in one month give a one-row summary for that month. */
  lemma OneMonthSummary(records: seq<Record>, l: string)
    requires records != []
    requires forall i :: 0 <= i < |records| ==> MonthKey(records[i]) == Some(l)
    ensures WeightsIn(records, l) != []
    ensures MonthlySummary(records) == [SummaryRow(l, Mean(WeightsIn(records, l)), Sum(CaloriesIn(records, l)))]
  {
    OneMonthSummaryShape(records, l);
    MonthlySummaryRows(records);
    WeightsNonEmptyInside(records, l);
  }

  lemma TwoRecordsSeries(r1: Record, r2: Record, l: string)
    requires MonthKey(r1) == Some(l) && MonthKey(r2) == Some(l)
    ensures WeightsIn([r1, r2], l) == [r1.weight, r2.weight]
    ensures CaloriesIn([r1, r2], l) == [r1.calories, r2.calories]
  {
    var records := [r1, r2];
    assert records[..1] == [r1] && records[..1][..0] == [];
    assert WeightsIn([r1], l) == [r1.weight] && CaloriesIn([r1], l) == [r1.calories];
    assert records[..|records| - 1] == [r1] && records[|records| - 1] == r2;
  }

  /** The worked example: two records of one month, of 70.0 and 71.0 kg and 300.0 and 180.0 kcal, give one row of 70.5 kg and 480.0 kcal for that month. */
  lemma SummaryOfTwoRecords(d1: Date, d2: Date)
    requires MonthOf(d1) == MonthOf(d2)
    ensures MonthlySummary([Record(Some(d1), 70.0, 5.0, 300.0), Record(Some(d2), 71.0, 3.0, 180.0)])
      == [SummaryRow(Label(MonthOf(d1)), 70.5, 480.0)]
  {
    var records := [Record(Some(d1), 70.0, 5.0, 300.0), Record(Some(d2), 71.0, 3.0, 180.0)];
    var l := Label(MonthOf(d1));
    assert MonthKey(records[0]) == Some(l) && MonthKey(records[1]) == Some(l);
    OneMonthSummary(records, l);
    TwoRecordsSeries(records[0], records[1], l);
    SumSnoc([], 70.0);
    SumSnoc([70.0], 71.0);
    SumSnoc([], 300.0);
    SumSnoc([300.0], 180.0);
  }
}
