/** The annual target weight: its file, its load fallback and the "remaining to goal" metric. */
module AnnualGoal {
  import opened Wrappers
  import opened Records

  const DefaultGoalWeight: real := 60.0

  /**
   * The goal file. `Stored(parsed)` holds what `float(f.read())` makes of its text:
   * None when that raises.
   */
  datatype GoalFile = Missing | Stored(parsed: Option<real>)

  /** Lines 29-36: the stored number, or 60.0 when the file is absent or does not parse. */
  function LoadGoalWeight(f: GoalFile): (w: real)
    ensures f.Missing? ==> w == DefaultGoalWeight
    ensures f.Stored? && f.parsed.None? ==> w == DefaultGoalWeight
    ensures f.Stored? && f.parsed.Some? ==> w == f.parsed.value
  {
    if f.Stored? then f.parsed.GetOr(DefaultGoalWeight) else DefaultGoalWeight
  }

  /** What the goal section shows: the metric, the "記録が必要です" notice, or nothing. */
  datatype Shown = Remaining(kg: real) | NeedRecords | NothingShown

  /** Lines 208-212: the notice without records, otherwise the latest weight minus the goal. */
  function RemainingToGoal(records: seq<Record>, goal: real): (r: Shown)
    ensures r.NeedRecords? <==> records == []
    ensures !r.NothingShown?
    ensures r.Remaining? ==> r.kg == LatestRecord(records).weight - goal
  {
    if records == [] then NeedRecords else Remaining(LatestRecord(records).weight - goal)
  }

  /** With every record dated, "remaining" is taken from a record of the latest day; `i` is that record. */
  lemma RemainingUsesLatestDay(records: seq<Record>, goal: real) returns (i: nat)
    requires records != []
    requires forall j :: 0 <= j < |records| ==> records[j].date.Some?
    ensures i < |records|
    ensures RemainingToGoal(records, goal) == Remaining(records[i].weight - goal)
    ensures forall j :: 0 <= j < |records| ==> DayKey(records[j].date.value) <= DayKey(records[i].date.value)
  {
    var x := LatestRecord(records);
    i :| 0 <= i < |records| && records[i] == x;
    LatestOfDated(records, i);
  }

  lemma LatestOfDated(records: seq<Record>, i: int)
    requires 0 <= i < |records|
    requires forall j :: 0 <= j < |records| ==> records[j].date.Some?
    requires forall j :: 0 <= j < |records| ==> DateLe(records[j].date, records[i].date)
    ensures forall j :: 0 <= j < |records| ==> DayKey(records[j].date.value) <= DayKey(records[i].date.value)
  {
  }

  lemma OnlyLatestIsLatest(records: seq<Record>, i: int, k: int)
    requires 0 <= i < |records| && 0 <= k < |records| && records[i].date.Some?
    requires forall j :: 0 <= j < |records| && j != i ==>
      records[j].date.Some? && DayKey(records[j].date.value) < DayKey(records[i].date.value)
    requires DateLe(records[i].date, records[k].date)
    ensures k == i
  {
  }

  /** When one record is strictly the latest, "remaining" is its weight minus the goal (68.0 kg against 65.0 gives 3.0). */
  lemma RemainingFromLatestRecord(records: seq<Record>, i: int, goal: real)
    requires 0 <= i < |records| && records[i].date.Some?
    requires forall j :: 0 <= j < |records| && j != i ==>
      records[j].date.Some? && DayKey(records[j].date.value) < DayKey(records[i].date.value)
    ensures RemainingToGoal(records, goal) == Remaining(records[i].weight - goal)
  {
    var x := LatestRecord(records);
    var k :| 0 <= k < |records| && records[k] == x;
    assert k == i by {
      OnlyLatestIsLatest(records, i, k);
    }
  }

  /**
   * The goal file as the page sees it; every render with a non-zero goal rewrites it. The page
   * reaches this part only once it gets past its monthly summary.
   */
  class AnnualGoalStore {
    var file: GoalFile

    constructor (f: GoalFile)
      ensures file == f
    {
      file := f;
    }

    /**
     * Lines 206-215. `entered` is the value the number input hands back: None when the operator
     * left it at its initial value. That value is LoadGoalWeight(file). In the page, file is the
     * cached first load of the process. A non-zero goal is written before the remaining weight
     * is computed, so the file is rewritten whether or not there are records.
     */
    method Render(entered: Option<real>, records: seq<Record>) returns (shown: Shown)
      modifies this
      ensures var goal := entered.GetOr(LoadGoalWeight(old(file)));
        && (goal == 0.0 ==> file == old(file) && shown == NothingShown)
        && (goal != 0.0 ==> file == Stored(Some(goal)) && LoadGoalWeight(file) == goal)
        && (goal != 0.0 ==> shown == RemainingToGoal(records, goal))
    {
      var goal := entered.GetOr(LoadGoalWeight(file));
      if goal != 0.0 {
        file := Stored(Some(goal));
        shown := RemainingToGoal(records, goal);
      } else {
        shown := NothingShown;
      }
    }
  }
}
