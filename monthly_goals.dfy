/**
 * Monthly goals: one (weight target, calorie target) pair per month of the fixed window,
 * loaded from the goals file with column fix-up, filtering, reindexing and default filling,
 * then edited row by row in place and saved back.
 */
module MonthlyGoals {
  import opened Wrappers
  import opened Calendar
  import Lex

  const MonthColumn := "年月"
  const WeightColumn := "体重目標"
  const CalorieColumn := "カロリー目標"
  const DefaultWeightTarget: real := 60.0
  const DefaultCalorieTarget: real := 0.0
  /** Stored weight targets below this are shown as the default instead (line 125). */
  const MinWeightTarget: real := 30.0

  /** One cell of the goals file as `read_csv` parses it; `Blank` is an empty cell (NaN). */
  datatype Cell = Text(text: string) | Num(number: real) | Blank

  type Row = map<string, Cell>

  /** A frame: its column names and its rows, each row keyed by column name. */
  datatype RawTable = RawTable(columns: set<string>, rows: seq<Row>)

  /** A table `read_csv` can produce: no row has a cell outside the table's columns. */
  predicate IsFrame(t: RawTable)
  {
    forall i :: 0 <= i < |t.rows| ==> t.rows[i].Keys <= t.columns
  }

  /** The cell of `row` in column `col`; a row that lacks the column reads as blank. */
  function CellAt(row: Row, col: string): Cell
  {
    if col in row then row[col] else Blank
  }

  function LabelOf(row: Row): Cell
  {
    CellAt(row, MonthColumn)
  }

  datatype LoadError =
    | ColumnExists(name: string) // reset_index cannot insert its column (pandas ValueError)
    | MissingMonthColumn         // the KeyError of line 99
    | DuplicateMonth             // reindex over duplicate labels (pandas ValueError)

  /**
   * One row of the loaded goals table: its month, its two targets, and its cells in the other
   * columns of the file, which travel along with it.
   */
  datatype GoalRow = GoalRow(monthLabel: string, weightTarget: real, calorieTarget: real, others: Row)

  /**
   * `goals_df` as load returns it: the name of the column holding the month labels, the other
   * columns carried along from the file, and one row per window month.
   */
  datatype Goals = Goals(labelColumn: string, carried: set<string>, rows: seq<GoalRow>)

  /** The column names the load and the save handle by name are all different. */
  lemma ColumnNamesDistinct()
    ensures |MonthColumn| == 2 && |WeightColumn| == 4 && |CalorieColumn| == 6
    ensures |"index"| == 5 && |"level_0"| == 7
  {
  }

  /**
   * The column `reset_index` inserts into a frame with columns `cols`: the index's own name or,
   * for an unnamed index, "index", or "level_0" when "index" is taken. pandas refuses a name
   * that is taken (ValueError).
   */
  function ResetColumnName(cols: set<string>, indexName: Option<string>): (r: Result<string, LoadError>)
    ensures r.Success? ==> r.value !in cols
    ensures r.Failure? ==> r.error.ColumnExists?
    ensures indexName.Some? ==> (r.Success? <==> indexName.value !in cols)
    ensures indexName.Some? && r.Success? ==> r.value == indexName.value
    ensures indexName.None? ==> (r.Failure? <==> "index" in cols && "level_0" in cols)
    ensures indexName.None? && r.Success? ==> r.value == (if "index" in cols then "level_0" else "index")
  {
    var name := if indexName.Some? then indexName.value else if "index" in cols then "level_0" else "index";
    if name in cols then Failure(ColumnExists(name)) else Success(name)
  }

  /**
   * Line 93, `df.reset_index()` on the frame `read_csv` gives: its index is the unnamed row
   * numbers, which become a new column named "index", or "level_0" if "index" is taken.
   */
  function ResetIndex(t: RawTable): (r: Result<RawTable, LoadError>)
    ensures r.Failure? <==> "index" in t.columns && "level_0" in t.columns
    ensures r.Success? ==> "index" in r.value.columns && |r.value.rows| == |t.rows|
    ensures r.Success? ==> r.value.columns == t.columns + {if "index" in t.columns then "level_0" else "index"}
    ensures r.Success? ==>
      forall i, c :: 0 <= i < |t.rows| && c in t.columns ==> CellAt(r.value.rows[i], c) == CellAt(t.rows[i], c)
    ensures r.Success? && "index" !in t.columns ==>
      forall i :: 0 <= i < |t.rows| ==> CellAt(r.value.rows[i], "index") == Num(i as real)
    ensures r.Success? && "index" in t.columns ==>
      forall i :: 0 <= i < |t.rows| ==> CellAt(r.value.rows[i], "level_0") == Num(i as real)
    ensures r.Success? && IsFrame(t) ==> IsFrame(r.value)
  {
    match ResetColumnName(t.columns, None)
    case Failure(e) => Failure(e)
    case Success(name) =>
      Success(RawTable(t.columns + {name},
        seq(|t.rows|, i requires 0 <= i < |t.rows| => t.rows[i][name := Num(i as real)])))
  }

  /** Line 95, `rename(columns={from: to})`. */
  function RenameColumn(t: RawTable, from: string, to: string): (r: RawTable)
    requires from != to
    ensures r.columns == t.columns - {from} + {to}
    ensures |r.rows| == |t.rows|
    ensures forall i :: 0 <= i < |t.rows| ==> CellAt(r.rows[i], to) == CellAt(t.rows[i], from)
    ensures forall i, c :: 0 <= i < |t.rows| && c != from && c != to ==> CellAt(r.rows[i], c) == CellAt(t.rows[i], c)
    ensures IsFrame(t) ==> IsFrame(r)
  {
    RawTable(t.columns - {from} + {to},
      seq(|t.rows|, i requires 0 <= i < |t.rows| => (t.rows[i] - {from})[to := CellAt(t.rows[i], from)]))
  }

  /**
   * Lines 92-99: make sure there is a month column. Without one, the reset index column
   * "index" is renamed to it; if there is still none, load raises KeyError.
   */
  function NormaliseColumns(t: RawTable): (r: Result<RawTable, LoadError>)
    ensures MonthColumn in t.columns ==> r == Success(t)
    ensures r.Success? ==> MonthColumn in r.value.columns && |r.value.rows| == |t.rows|
    ensures r.Failure? <==> MonthColumn !in t.columns && "index" in t.columns && "level_0" in t.columns
    ensures r.Success? && IsFrame(t) ==> IsFrame(r.value)
  {
    var reset := if MonthColumn !in t.columns then ResetIndex(t) else Success(t);
    if reset.Failure? then reset
    else
      var u := reset.value;
      var v := if "index" in u.columns && MonthColumn !in u.columns then RenameColumn(u, "index", MonthColumn) else u;
      if MonthColumn !in v.columns then Failure(MissingMonthColumn) else Success(v)
  }

  predicate InWindow(c: Cell)
  {
    c.Text? && c.text in Window()
  }

  /** How many rows carry the month label `l`. */
  function CountLabel(rows: seq<Row>, l: string): nat
  {
    if rows == [] then 0
    else (if LabelOf(rows[0]) == Text(l) then 1 else 0) + CountLabel(rows[1..], l)
  }

  /** The first row labelled `l`: what `set_index("年月").reindex(...)` picks when the label is unique. */
  function FindLabel(rows: seq<Row>, l: string): (r: Option<Row>)
    ensures r.Some? <==> CountLabel(rows, l) > 0
    ensures r.Some? ==> r.value in rows && LabelOf(r.value) == Text(l)
  {
    if rows == [] then None
    else if LabelOf(rows[0]) == Text(l) then Some(rows[0])
    else FindLabel(rows[1..], l)
  }

  /** Line 102, `df[df["年月"].isin(months)]`: the rows labelled with a window month, in their order. */
  function FilterWindow(rows: seq<Row>): (r: seq<Row>)
    ensures forall x :: x in r ==> InWindow(LabelOf(x))
    ensures forall x :: multiset(r)[x] == if InWindow(LabelOf(x)) then multiset(rows)[x] else 0
    ensures forall l :: l in Window() ==> CountLabel(r, l) == CountLabel(rows, l)
    ensures forall l :: l in Window() ==> FindLabel(r, l) == FindLabel(rows, l)
  {
    if rows == [] then []
    else
      var tail := FilterWindow(rows[1..]);
      assert rows == [rows[0]] + rows[1..];
      if InWindow(LabelOf(rows[0])) then
        assert ([rows[0]] + tail)[1..] == tail;
        [rows[0]] + tail
      else
        tail
  }

  /** Line 104: a stored number, or the fill value for an empty cell. */
  function TargetOr(c: Cell, default: real): real
  {
    if c.Num? then c.number else default
  }

  /** A row holding a blank cell in each of the columns `cols`. */
  function BlankRow(cols: set<string>): (r: Row)
    ensures r.Keys == cols
    ensures forall c :: c in cols ==> r[c] == Blank
  {
    map c | c in cols :: Blank
  }

  /** The cells of `x` in the columns `cols`, blank where `x` has none. */
  function Project(x: Row, cols: set<string>): (r: Row)
    ensures r.Keys == cols
    ensures forall c :: c in cols ==> r[c] == CellAt(x, c)
  {
    (x - (x.Keys - cols)) + BlankRow(cols - x.Keys)
  }

  /**
   * Lines 103-104 for one month `l`: the stored row `x` with blank targets filled in and its
   * `carried` cells kept; a month `reindex` adds has the empty row `map[]`, all blank.
   */
  function ReadRow(x: Row, l: string, carried: set<string>): GoalRow
  {
    GoalRow(l, TargetOr(CellAt(x, WeightColumn), DefaultWeightTarget),
      TargetOr(CellAt(x, CalorieColumn), DefaultCalorieTarget), Project(x, carried))
  }

  /** Lines 103-104: the window row for label `l`, from its stored row or from the defaults. */
  function GoalFor(rows: seq<Row>, l: string, carried: set<string>): GoalRow
  {
    ReadRow(FindLabel(rows, l).GetOr(map[]), l, carried)
  }

  /** Every window month with the default targets and blank `carried` cells. */
  function BlankGoals(carried: set<string>): seq<GoalRow>
  {
    seq(|Window()|, i requires 0 <= i < |Window()| => ReadRow(map[], Window()[i], carried))
  }

  /** The table of lines 108-112: every window month with the default targets, and no other column. */
  function DefaultGoals(): seq<GoalRow>
  {
    BlankGoals({})
  }

  /** A normalised goals table: the window months, once each, in window order. */
  predicate IsWindowTable(g: seq<GoalRow>)
  {
    |g| == |Window()| && forall i :: 0 <= i < |g| ==> g[i].monthLabel == Window()[i]
  }

  /**
   * The shape of every table load returns: a window table; the label column, the carried
   * columns and the two target columns are distinct; each row has a cell in every carried
   * column; and the label column is 年月, "index", or "level_0" beside a carried "index".
   */
  predicate WellFormedGoals(g: Goals)
  {
    && IsWindowTable(g.rows)
    && g.labelColumn != WeightColumn && g.labelColumn != CalorieColumn
    && g.labelColumn !in g.carried && MonthColumn !in g.carried
    && WeightColumn !in g.carried && CalorieColumn !in g.carried
    && (forall i :: 0 <= i < |g.rows| ==> g.rows[i].others.Keys == g.carried)
    && (g.labelColumn == MonthColumn || g.labelColumn == "index" || (g.labelColumn == "level_0" && "index" in g.carried))
  }

  /**
   * The name of the index that line 103 hands to `reindex`: `months` has none. The corrected
   * load (`named`) reindexes by the window named 年月, as `months.rename("年月")` would.
   */
  function ReindexName(named: bool): Option<string>
  {
    if named then Some(MonthColumn) else None
  }

  /** Some window month labels two or more of `kept`: `reindex` refuses a duplicate label (pandas ValueError). */
  predicate HasDuplicate(kept: seq<Row>)
  {
    exists k :: 0 <= k < |Window()| && CountLabel(kept, Window()[k]) > 1
  }

  /** Line 103's `reindex(months)`: one row per window month, in window order. */
  function WindowRows(kept: seq<Row>, carried: set<string>): (r: seq<GoalRow>)
    ensures IsWindowTable(r)
    ensures forall k :: 0 <= k < |r| ==> r[k].others.Keys == carried
  {
    seq(|Window()|, k requires 0 <= k < |Window()| => GoalFor(kept, Window()[k], carried))
  }

  /**
   * Lines 102-104 on a table with a month column: keep the window rows, reindex them by the
   * window (failing on a duplicate label), move the index back into a column named by
   * `reset_index`, and fill the blank targets. Every other column is carried along.
   */
  function ReindexWindow(t: RawTable, named: bool): (r: Result<Goals, LoadError>)
    requires MonthColumn in t.columns
    ensures r.Success? ==> WellFormedGoals(r.value)
    ensures r.Success? ==> r.value.carried == t.columns - {MonthColumn, WeightColumn, CalorieColumn}
    ensures r.Success? ==> (r.value.labelColumn == MonthColumn <==> named)
    ensures named ==> r.Failure? ==> r.error == DuplicateMonth
  {
    var kept := FilterWindow(t.rows);
    if HasDuplicate(kept) then Failure(DuplicateMonth)
    else
      var rest := t.columns - {MonthColumn};
      ColumnNamesDistinct();
      match ResetColumnName(rest, ReindexName(named))
      case Failure(e) => Failure(e)
      case Success(name) =>
        var carried := rest - {WeightColumn, CalorieColumn};
        Success(Goals(name, carried, WindowRows(kept, carried)))
  }

  /** Lines 85-112 with line 103 reindexing by an index of the given name. */
  function LoadGoals(file: Option<RawTable>, named: bool): (r: Result<Goals, LoadError>)
    ensures file.None? ==> r == Success(Goals(MonthColumn, {}, DefaultGoals()))
    ensures r.Success? ==> WellFormedGoals(r.value)
    ensures file.Some? && r.Success? ==> (r.value.labelColumn == MonthColumn <==> named)
    ensures r != Failure(MissingMonthColumn)
  {
    if file.None? then
      ColumnNamesDistinct();
      Success(Goals(MonthColumn, {}, DefaultGoals()))
    else
      match NormaliseColumns(file.value)
      case Failure(e) => Failure(e)
      case Success(t) => ReindexWindow(t, named)
  }

  /**
   * Lines 85-112, `load_monthly_goals`. `file` is None when the goals file does not exist.
   * A table loaded from a file keeps its month labels in a column named "index" (or "level_0"):
   * `reindex(months)` gives the index the name of `months`, which has none.
   */
  function LoadMonthlyGoals(file: Option<RawTable>): (r: Result<Goals, LoadError>)
    ensures file.None? ==> r == Success(Goals(MonthColumn, {}, DefaultGoals()))
    ensures r.Success? ==> WellFormedGoals(r.value)
    ensures file.Some? && r.Success? ==> r.value.labelColumn != MonthColumn
    ensures r != Failure(MissingMonthColumn)
  {
    LoadGoals(file, false)
  }

  /** The corrected load: line 103 reindexes by the window named 年月, so the month labels stay in 年月. */
  function LoadMonthlyGoalsNamed(file: Option<RawTable>): (r: Result<Goals, LoadError>)
    ensures file.None? ==> r == Success(Goals(MonthColumn, {}, DefaultGoals()))
    ensures r.Success? ==> WellFormedGoals(r.value) && r.value.labelColumn == MonthColumn
    ensures r != Failure(MissingMonthColumn)
  {
    LoadGoals(file, true)
  }

  /** Without a goals file: exactly the seven months 2025-06..2025-12, each with 60.0 kg and 0.0 kcal. */
  lemma LoadWithoutFile()
    ensures LoadMonthlyGoals(None) == Success(Goals(MonthColumn, {}, [
      GoalRow("2025-06", 60.0, 0.0, map[]), GoalRow("2025-07", 60.0, 0.0, map[]), GoalRow("2025-08", 60.0, 0.0, map[]),
      GoalRow("2025-09", 60.0, 0.0, map[]), GoalRow("2025-10", 60.0, 0.0, map[]), GoalRow("2025-11", 60.0, 0.0, map[]),
      GoalRow("2025-12", 60.0, 0.0, map[])]))
  {
    DefaultGoalsByIndex();
    WindowLabels();
  }

  lemma DefaultGoalsByIndex()
    ensures DefaultGoals() == [
      GoalRow(Window()[0], 60.0, 0.0, map[]), GoalRow(Window()[1], 60.0, 0.0, map[]), GoalRow(Window()[2], 60.0, 0.0, map[]),
      GoalRow(Window()[3], 60.0, 0.0, map[]), GoalRow(Window()[4], 60.0, 0.0, map[]), GoalRow(Window()[5], 60.0, 0.0, map[]),
      GoalRow(Window()[6], 60.0, 0.0, map[])]
  {
    var d := DefaultGoals();
    assert |d| == 7;
    forall i | 0 <= i < 7 ensures d[i] == GoalRow(Window()[i], 60.0, 0.0, map[]) {
      BlankReadRow(Window()[i]);
    }
  }

  /** A month `reindex` adds, with no other column: the default targets. */
  lemma BlankReadRow(l: string)
    ensures ReadRow(map[], l, {}) == GoalRow(l, 60.0, 0.0, map[])
  {
    assert Project(map[], {}) == map[];
  }

  lemma {:induction false} CountZero(rows: seq<Row>, l: string)
    requires forall j :: 0 <= j < |rows| ==> LabelOf(rows[j]) != Text(l)
    ensures CountLabel(rows, l) == 0
  {
    if rows != [] {
      assert forall j :: 0 <= j < |rows[1..]| ==> rows[1..][j] == rows[j + 1];
      CountZero(rows[1..], l);
    }
  }

  lemma {:induction false} CountPositive(rows: seq<Row>, i: int, l: string)
    requires 0 <= i < |rows| && LabelOf(rows[i]) == Text(l)
    ensures CountLabel(rows, l) >= 1
  {
    if i > 0 {
      assert rows[1..][i - 1] == rows[i];
      CountPositive(rows[1..], i - 1, l);
    }
  }

  lemma {:induction false} CountOne(rows: seq<Row>, i: int, l: string)
    requires 0 <= i < |rows| && LabelOf(rows[i]) == Text(l)
    requires forall j :: 0 <= j < |rows| && j != i ==> LabelOf(rows[j]) != Text(l)
    ensures CountLabel(rows, l) == 1
  {
    assert forall j :: 0 <= j < |rows[1..]| ==> rows[1..][j] == rows[j + 1];
    if i == 0 {
      CountZero(rows[1..], l);
    } else {
      CountOne(rows[1..], i - 1, l);
    }
  }

  /** A label carried by at most one row is found at that row. */
  lemma {:induction false} UniqueFind(rows: seq<Row>, i: int, l: string)
    requires 0 <= i < |rows| && LabelOf(rows[i]) == Text(l) && CountLabel(rows, l) <= 1
    ensures FindLabel(rows, l) == Some(rows[i])
  {
    if i > 0 {
      assert rows[1..][i - 1] == rows[i];
      CountPositive(rows[1..], i - 1, l);
      UniqueFind(rows[1..], i - 1, l);
    }
  }

  lemma WindowDistinct(j: int, k: int)
    requires 0 <= j < |Window()| && 0 <= k < |Window()| && j != k
    ensures Window()[j] != Window()[k]
  {
    Lex.Irreflexive(Window()[j]);
  }

  /** A load of a table with a month column that succeeds is the reindex of its window rows. */
  lemma LoadedRows(t: RawTable, named: bool)
    requires MonthColumn in t.columns
    ensures var r := LoadGoals(Some(t), named);
      r.Success? ==> r.value.rows == WindowRows(FilterWindow(t.rows), r.value.carried)
  {
    assert NormaliseColumns(t) == Success(t);
  }

  /** Months of the window that occur in the file keep their stored targets, even below 30 kg, and their other cells. */
  lemma LoadKeepsStoredTargets(t: RawTable, i: int, named: bool)
    requires IsFrame(t)
    requires MonthColumn in t.columns
    requires 0 <= i < |t.rows| && InWindow(LabelOf(t.rows[i]))
    ensures var r := LoadGoals(Some(t), named);
      r.Success? ==> forall k :: 0 <= k < |Window()| && Text(Window()[k]) == LabelOf(t.rows[i]) ==>
        && r.value.rows[k].weightTarget == TargetOr(CellAt(t.rows[i], WeightColumn), DefaultWeightTarget)
        && r.value.rows[k].calorieTarget == TargetOr(CellAt(t.rows[i], CalorieColumn), DefaultCalorieTarget)
        && r.value.rows[k].others == Project(t.rows[i], r.value.carried)
  {
    var r := LoadGoals(Some(t), named);
    if r.Success? {
      var kept := FilterWindow(t.rows);
      LoadedRows(t, named);
      assert !HasDuplicate(kept);
      forall k | 0 <= k < |Window()| && Text(Window()[k]) == LabelOf(t.rows[i])
        ensures r.value.rows[k] == ReadRow(t.rows[i], Window()[k], r.value.carried)
      {
        assert CountLabel(t.rows, Window()[k]) == CountLabel(kept, Window()[k]) <= 1;
        UniqueFind(t.rows, i, Window()[k]);
        assert FindLabel(kept, Window()[k]) == Some(t.rows[i]);
        assert r.value.rows[k] == GoalFor(kept, Window()[k], r.value.carried);
      }
    }
  }

  /** Months of the window missing from the file get 60.0 kg and 0.0 kcal, and blank other cells. */
  lemma LoadDefaultsMissingMonths(t: RawTable, k: int, named: bool)
    requires IsFrame(t)
    requires MonthColumn in t.columns
    requires 0 <= k < |Window()|
    requires forall i :: 0 <= i < |t.rows| ==> LabelOf(t.rows[i]) != Text(Window()[k])
    ensures var r := LoadGoals(Some(t), named);
      r.Success? ==>
        && r.value.rows[k].weightTarget == DefaultWeightTarget
        && r.value.rows[k].calorieTarget == DefaultCalorieTarget
        && forall c :: c in r.value.carried ==> r.value.rows[k].others[c] == Blank
  {
    CountZero(t.rows, Window()[k]);
    var kept := FilterWindow(t.rows);
    LoadedRows(t, named);
    assert FindLabel(kept, Window()[k]).None?;
  }

  /**
   * With a month column, load fails with `DuplicateMonth` exactly when some window month labels
   * two or more rows (duplicates outside the window are dropped first and do no harm). The load
   * as written also fails when the columns "index" and "level_0" are both present, because
   * line 103's `reset_index` has no name left for the month labels.
   */
  lemma LoadFailsOnlyOnDuplicates(t: RawTable)
    requires IsFrame(t)
    requires MonthColumn in t.columns
    ensures var dup := exists k :: 0 <= k < |Window()| && CountLabel(t.rows, Window()[k]) > 1;
      && (LoadMonthlyGoals(Some(t)) == Failure(DuplicateMonth) <==> dup)
      && (LoadMonthlyGoals(Some(t)).Failure? <==> dup || ("index" in t.columns && "level_0" in t.columns))
      && (LoadMonthlyGoalsNamed(Some(t)).Failure? <==> dup)
  {
    var kept := FilterWindow(t.rows);
    assert forall k :: 0 <= k < |Window()| ==> CountLabel(kept, Window()[k]) == CountLabel(t.rows, Window()[k]);
    ColumnNamesDistinct();
    assert "index" in t.columns - {MonthColumn} <==> "index" in t.columns;
    assert "level_0" in t.columns - {MonthColumn} <==> "level_0" in t.columns;
  }

  /**
   * A file with neither a month column nor an "index" column: line 93 makes the month column
   * from the row numbers, no row matches a window month, and every month gets the defaults.
   */
  lemma LoadWithoutMonthColumn(t: RawTable)
    requires IsFrame(t)
    requires MonthColumn !in t.columns && "index" !in t.columns
    ensures var carried := t.columns - {WeightColumn, CalorieColumn};
      LoadMonthlyGoals(Some(t)) == Success(Goals("index", carried, BlankGoals(carried)))
  {
    ColumnNamesDistinct();
    var u := ResetIndex(t).value;
    var v := RenameColumn(u, "index", MonthColumn);
    assert NormaliseColumns(t) == Success(v);
    assert forall i :: 0 <= i < |v.rows| ==> LabelOf(v.rows[i]) == Num(i as real);
    var kept := FilterWindow(v.rows);
    assert kept == [];
    assert v.columns - {MonthColumn} == t.columns;
    var carried := t.columns - {WeightColumn, CalorieColumn};
    var r := LoadMonthlyGoals(Some(t));
    assert r.Success?;
    forall k | 0 <= k < |Window()| ensures r.value.rows[k] == BlankGoals(carried)[k] {
      assert r.value.rows[k] == GoalFor(kept, Window()[k], carried);
    }
    assert r.value.rows == BlankGoals(carried);
  }

  /** A file with an "index" column but no month column: that column becomes the month column. */
  lemma NormaliseRenamesIndex(t: RawTable)
    requires IsFrame(t)
    requires MonthColumn !in t.columns && "index" in t.columns && "level_0" !in t.columns
    ensures var r := NormaliseColumns(t);
      && r.Success?
      && |r.value.rows| == |t.rows|
      && forall i :: 0 <= i < |t.rows| ==>
           && LabelOf(r.value.rows[i]) == CellAt(t.rows[i], "index")
           && CellAt(r.value.rows[i], WeightColumn) == CellAt(t.rows[i], WeightColumn)
           && CellAt(r.value.rows[i], CalorieColumn) == CellAt(t.rows[i], CalorieColumn)
  {
    ColumnNamesDistinct();
  }

  /** Line 103 on a table whose rows are the window months, in order, once each: no duplicate, and row k becomes month k. */
  lemma WindowTableRows(t: RawTable, carried: set<string>)
    requires |t.rows| == |Window()|
    requires forall k :: 0 <= k < |t.rows| ==> LabelOf(t.rows[k]) == Text(Window()[k])
    ensures !HasDuplicate(FilterWindow(t.rows))
    ensures forall k :: 0 <= k < |Window()| ==>
      WindowRows(FilterWindow(t.rows), carried)[k] == ReadRow(t.rows[k], Window()[k], carried)
  {
    var kept := FilterWindow(t.rows);
    forall k | 0 <= k < |Window()|
      ensures CountLabel(kept, Window()[k]) == 1
      ensures WindowRows(kept, carried)[k] == ReadRow(t.rows[k], Window()[k], carried)
    {
      WindowRowFound(t.rows, k);
      assert Window()[k] in Window();
      assert FindLabel(kept, Window()[k]) == Some(t.rows[k]);
      assert WindowRows(kept, carried)[k] == GoalFor(kept, Window()[k], carried);
    }
  }

  /** In rows labelled with the window months in order, month `k` labels row `k` and no other. */
  lemma WindowRowFound(rows: seq<Row>, k: int)
    requires |rows| == |Window()| && 0 <= k < |rows|
    requires forall j :: 0 <= j < |rows| ==> LabelOf(rows[j]) == Text(Window()[j])
    ensures CountLabel(rows, Window()[k]) == 1
    ensures FindLabel(rows, Window()[k]) == Some(rows[k])
  {
    forall j | 0 <= j < |rows| && j != k ensures LabelOf(rows[j]) != Text(Window()[k]) {
      WindowDistinct(j, k);
    }
    CountOne(rows, k, Window()[k]);
    UniqueFind(rows, k, Window()[k]);
  }

  /** The columns line 138 writes for `g`: the label column under its own name, the targets, the carried columns. */
  function FileColumns(g: Goals): set<string>
  {
    {g.labelColumn, WeightColumn, CalorieColumn} + g.carried
  }

  /** One saved row: its carried cells, its label and its two targets. */
  function SavedRow(labelColumn: string, x: GoalRow): Row
  {
    x.others[labelColumn := Text(x.monthLabel)][WeightColumn := Num(x.weightTarget)][CalorieColumn := Num(x.calorieTarget)]
  }

  /** Line 138, `to_csv(index=False)`: every column of the frame, one row per month, no index. */
  function GoalsFile(g: Goals): RawTable
  {
    RawTable(FileColumns(g), seq(|g.rows|, i requires 0 <= i < |g.rows| => SavedRow(g.labelColumn, g.rows[i])))
  }

  /** Each saved row has a cell in exactly the file's columns: its label, its two targets and its carried cells. */
  lemma GoalsFileCells(g: Goals, i: int)
    requires WellFormedGoals(g) && 0 <= i < |g.rows|
    ensures var x := GoalsFile(g).rows[i];
      && x.Keys == GoalsFile(g).columns
      && CellAt(x, g.labelColumn) == Text(g.rows[i].monthLabel)
      && CellAt(x, WeightColumn) == Num(g.rows[i].weightTarget)
      && CellAt(x, CalorieColumn) == Num(g.rows[i].calorieTarget)
      && forall c :: c in g.carried ==> CellAt(x, c) == g.rows[i].others[c]
  {
    ColumnNamesDistinct();
  }

  /** The saved file is a table `read_csv` can read back: each row has a cell in every column and no other. */
  lemma GoalsFileIsFrame(g: Goals)
    requires WellFormedGoals(g)
    ensures IsFrame(GoalsFile(g))
  {
    forall i | 0 <= i < |g.rows| ensures GoalsFile(g).rows[i].Keys <= GoalsFile(g).columns {
      GoalsFileCells(g, i);
    }
  }

  /** A row whose cells in `cols` are those of `others` reads back as `others`. */
  lemma ProjectBack(x: Row, others: Row, cols: set<string>)
    requires others.Keys == cols
    requires forall c :: c in cols ==> CellAt(x, c) == others[c]
    ensures Project(x, cols) == others
  {
  }

  /** The saved rows of a window table carry the window months in order under its label column. */
  lemma SavedLabels(g: Goals)
    requires WellFormedGoals(g)
    ensures |GoalsFile(g).rows| == |Window()|
    ensures forall k :: 0 <= k < |Window()| ==> CellAt(GoalsFile(g).rows[k], g.labelColumn) == Text(Window()[k])
  {
    forall k | 0 <= k < |Window()| ensures CellAt(GoalsFile(g).rows[k], g.labelColumn) == Text(Window()[k]) {
      GoalsFileCells(g, k);
    }
  }

  /** Reindexing a saved 年月 file by the window gives back the saved rows. */
  lemma MonthFileRows(g: Goals)
    requires WellFormedGoals(g) && g.labelColumn == MonthColumn
    ensures !HasDuplicate(FilterWindow(GoalsFile(g).rows))
    ensures WindowRows(FilterWindow(GoalsFile(g).rows), g.carried) == g.rows
  {
    var f := GoalsFile(g);
    SavedLabels(g);
    WindowTableRows(f, g.carried);
    var read := WindowRows(FilterWindow(f.rows), g.carried);
    forall k | 0 <= k < |Window()| ensures read[k] == g.rows[k] {
      GoalsFileCells(g, k);
      ProjectBack(f.rows[k], g.rows[k].others, g.carried);
    }
  }

  /**
   * A saved table whose labels sit in 年月 reads back row for row; only the name of the label
   * column is what line 103's `reset_index` chooses.
   */
  lemma MonthFileReloads(g: Goals, named: bool)
    requires WellFormedGoals(g) && g.labelColumn == MonthColumn
    ensures LoadGoals(Some(GoalsFile(g)), named) ==
      match ResetColumnName(FileColumns(g) - {MonthColumn}, ReindexName(named))
      case Failure(e) => Failure(e)
      case Success(name) => Success(g.(labelColumn := name))
  {
    var f := GoalsFile(g);
    ColumnNamesDistinct();
    assert NormaliseColumns(f) == Success(f);
    assert f.columns - {MonthColumn} - {WeightColumn, CalorieColumn} == g.carried;
    MonthFileRows(g);
  }

  /**
   * Lines 93-95 on the file saved from a table labelled in "index": `reset_index` numbers the
   * rows in a new "level_0" column ("index" is taken) and "index" is renamed to 年月.
   */
  function IndexReloadTable(g: Goals): (v: RawTable)
    requires WellFormedGoals(g) && g.labelColumn == "index" && "level_0" !in g.carried
    ensures |v.rows| == |g.rows|
  {
    ColumnNamesDistinct();
    RenameColumn(ResetIndex(GoalsFile(g)).value, "index", MonthColumn)
  }

  /** Lines 92-99 take the saved "index" file to `IndexReloadTable`, whose other columns are the targets, the carried ones and "level_0". */
  lemma IndexFileNormalises(g: Goals)
    requires WellFormedGoals(g) && g.labelColumn == "index" && "level_0" !in g.carried
    ensures NormaliseColumns(GoalsFile(g)) == Success(IndexReloadTable(g))
    ensures IndexReloadTable(g).columns - {MonthColumn} == {WeightColumn, CalorieColumn} + (g.carried + {"level_0"})
  {
    ColumnNamesDistinct();
  }

  /** One row of `IndexReloadTable`: labelled with its month, and read back with its position in "level_0". */
  lemma IndexRowReloads(g: Goals, k: int)
    requires WellFormedGoals(g) && g.labelColumn == "index" && "level_0" !in g.carried
    requires 0 <= k < |g.rows|
    ensures LabelOf(IndexReloadTable(g).rows[k]) == Text(Window()[k])
    ensures ReadRow(IndexReloadTable(g).rows[k], Window()[k], g.carried + {"level_0"})
      == g.rows[k].(others := g.rows[k].others["level_0" := Num(k as real)])
  {
    var f := GoalsFile(g);
    var v := IndexReloadTable(g);
    ColumnNamesDistinct();
    GoalsFileCells(g, k);
    IndexReloadCells(g, k);
    assert CellAt(v.rows[k], WeightColumn) == CellAt(f.rows[k], WeightColumn);
    assert CellAt(v.rows[k], CalorieColumn) == CellAt(f.rows[k], CalorieColumn);
    forall c | c in g.carried ensures CellAt(v.rows[k], c) == g.rows[k].others[c] {
      assert CellAt(v.rows[k], c) == CellAt(f.rows[k], c);
    }
    ProjectBack(v.rows[k], g.rows[k].others["level_0" := Num(k as real)], g.carried + {"level_0"});
  }

  /** Row `k` of `IndexReloadTable`: its label from "index", its position in "level_0", every other cell as saved. */
  lemma IndexReloadCells(g: Goals, k: int)
    requires WellFormedGoals(g) && g.labelColumn == "index" && "level_0" !in g.carried
    requires 0 <= k < |g.rows|
    ensures var v, f := IndexReloadTable(g), GoalsFile(g);
      && CellAt(v.rows[k], "level_0") == Num(k as real)
      && LabelOf(v.rows[k]) == CellAt(f.rows[k], "index")
      && forall c :: c in f.columns && c != "index" ==> CellAt(v.rows[k], c) == CellAt(f.rows[k], c)
  {
    var f := GoalsFile(g);
    ColumnNamesDistinct();
    var u := ResetIndex(f).value;
    var v := IndexReloadTable(g);
    assert v == RenameColumn(u, "index", MonthColumn);
    assert MonthColumn !in f.columns && "level_0" !in f.columns;
    assert CellAt(v.rows[k], "level_0") == CellAt(u.rows[k], "level_0");
  }

  /** The rows with their position in a "level_0" cell, as line 93's `reset_index` leaves them. */
  function Numbered(rows: seq<GoalRow>): (r: seq<GoalRow>)
    ensures |r| == |rows|
    ensures forall i :: 0 <= i < |rows| ==> r[i] == rows[i].(others := rows[i].others["level_0" := Num(i as real)])
  {
    seq(|rows|, i requires 0 <= i < |rows| => rows[i].(others := rows[i].others["level_0" := Num(i as real)]))
  }

  /** The rows of `IndexReloadTable` carry the window months in order. */
  lemma IndexFileLabels(g: Goals)
    requires WellFormedGoals(g) && g.labelColumn == "index" && "level_0" !in g.carried
    ensures |IndexReloadTable(g).rows| == |Window()|
    ensures forall k :: 0 <= k < |Window()| ==> LabelOf(IndexReloadTable(g).rows[k]) == Text(Window()[k])
  {
    forall k | 0 <= k < |Window()| ensures LabelOf(IndexReloadTable(g).rows[k]) == Text(Window()[k]) {
      IndexRowReloads(g, k);
    }
  }

  /** Reindexing `IndexReloadTable` by the window (line 103) gives the numbered rows. */
  lemma IndexFileRows(g: Goals)
    requires WellFormedGoals(g) && g.labelColumn == "index" && "level_0" !in g.carried
    ensures !HasDuplicate(FilterWindow(IndexReloadTable(g).rows))
    ensures WindowRows(FilterWindow(IndexReloadTable(g).rows), g.carried + {"level_0"}) == Numbered(g.rows)
  {
    var v := IndexReloadTable(g);
    var carried := g.carried + {"level_0"};
    IndexFileLabels(g);
    WindowTableRows(v, carried);
    var read := WindowRows(FilterWindow(v.rows), carried);
    forall k | 0 <= k < |Window()| ensures read[k] == Numbered(g.rows)[k] {
      IndexRowReloads(g, k);
    }
  }

  /**
   * A saved table labelled in "index" reads back through lines 93-105: its rows gain a
   * "level_0" cell holding their position, carried from then on.
   */
  lemma IndexFileReloads(g: Goals, named: bool)
    requires WellFormedGoals(g) && g.labelColumn == "index" && "level_0" !in g.carried
    ensures LoadGoals(Some(GoalsFile(g)), named)
      == Success(Goals(if named then MonthColumn else "index", g.carried + {"level_0"}, Numbered(g.rows)))
  {
    ColumnNamesDistinct();
    IndexFileNormalises(g);
    var v := IndexReloadTable(g);
    assert v.columns - {MonthColumn} - {WeightColumn, CalorieColumn} == g.carried + {"level_0"};
    IndexFileRows(g);
  }

  /**
   * What loading the file saved from `g` gives, by the name of its label column: a 年月 file
   * comes back row for row; an "index" file comes back with a "level_0" column added; a file
   * that already holds "index" and "level_0" cannot be loaded (line 93).
   */
  function Reloaded(g: Goals, named: bool): Result<Goals, LoadError>
  {
    if g.labelColumn == MonthColumn then
      if named then Success(g)
      else if "index" in g.carried && "level_0" in g.carried then Failure(ColumnExists("level_0"))
      else Success(g.(labelColumn := if "index" in g.carried then "level_0" else "index"))
    else if g.labelColumn == "level_0" || "level_0" in g.carried then Failure(ColumnExists("level_0"))
    else Success(Goals(if named then MonthColumn else "index", g.carried + {"level_0"}, Numbered(g.rows)))
  }

  /** The corrected load reads a saved 年月 file back as the table that was saved. */
  lemma MonthNamedSaveLoad(g: Goals)
    requires WellFormedGoals(g) && g.labelColumn == MonthColumn
    ensures LoadGoals(Some(GoalsFile(g)), true) == Success(g)
  {
    ColumnNamesDistinct();
    MonthFileReloads(g, true);
    assert MonthColumn !in FileColumns(g) - {MonthColumn};
    assert g.(labelColumn := MonthColumn) == g;
  }

  /** As written, line 103 leaves the labels of a saved 年月 file in "index", or "level_0" when "index" is carried. */
  lemma MonthPlainSaveLoad(g: Goals)
    requires WellFormedGoals(g) && g.labelColumn == MonthColumn
    ensures LoadGoals(Some(GoalsFile(g)), false) == Reloaded(g, false)
  {
    MonthFileReloads(g, false);
    PlainReloadName(g);
  }

  /** The name `reset_index` picks for the labels of a saved 年月 file, as `Reloaded` states it. */
  lemma PlainReloadName(g: Goals)
    requires WellFormedGoals(g) && g.labelColumn == MonthColumn
    ensures Reloaded(g, false) ==
      match ResetColumnName(FileColumns(g) - {MonthColumn}, None)
      case Failure(e) => Failure(e)
      case Success(name) => Success(g.(labelColumn := name))
  {
    ColumnNamesDistinct();
    var rest := FileColumns(g) - {MonthColumn};
    assert "index" in rest <==> "index" in g.carried;
    assert "level_0" in rest <==> "level_0" in g.carried;
  }

  /** A saved file without 年月 that holds "index" and "level_0" fails at line 93. */
  lemma BlockedSaveLoad(g: Goals, named: bool)
    requires WellFormedGoals(g) && g.labelColumn != MonthColumn
    requires g.labelColumn == "level_0" || "level_0" in g.carried
    ensures LoadGoals(Some(GoalsFile(g)), named) == Failure(ColumnExists("level_0"))
  {
    ColumnNamesDistinct();
    assert MonthColumn !in GoalsFile(g).columns;
    assert "index" in GoalsFile(g).columns && "level_0" in GoalsFile(g).columns;
  }

  /** Lines 138 and 85-105: loading the saved file of a loaded table gives `Reloaded`. */
  lemma SaveLoad(g: Goals, named: bool)
    requires WellFormedGoals(g)
    ensures LoadGoals(Some(GoalsFile(g)), named) == Reloaded(g, named)
  {
    if g.labelColumn == MonthColumn {
      if named {
        MonthNamedSaveLoad(g);
      } else {
        MonthPlainSaveLoad(g);
      }
    } else if g.labelColumn == "level_0" || "level_0" in g.carried {
      BlockedSaveLoad(g, named);
    } else {
      IndexFileReloads(g, named);
    }
  }

  /** Whatever the label column, a reload that succeeds keeps every month and its two targets. */
  lemma ReloadKeepsTargets(g: Goals, named: bool)
    requires WellFormedGoals(g)
    ensures var r := Reloaded(g, named);
      r.Success? ==>
        && WellFormedGoals(r.value)
        && |r.value.rows| == |g.rows|
        && forall k :: 0 <= k < |g.rows| ==>
             && r.value.rows[k].monthLabel == g.rows[k].monthLabel
             && r.value.rows[k].weightTarget == g.rows[k].weightTarget
             && r.value.rows[k].calorieTarget == g.rows[k].calorieTarget
  {
    ColumnNamesDistinct();
    var r := Reloaded(g, named);
    if r.Success? {
      if g.labelColumn == MonthColumn {
        assert r.value.rows == g.rows && r.value.carried == g.carried;
      } else {
        assert g.labelColumn == "index" && r.value.carried == g.carried + {"level_0"};
        assert r.value.rows == Numbered(g.rows);
      }
    }
  }

  /** The corrected load gives back exactly what was saved. */
  lemma NamedSaveLoadRoundTrip(g: Goals)
    requires WellFormedGoals(g) && g.labelColumn == MonthColumn
    ensures LoadMonthlyGoalsNamed(Some(GoalsFile(g))) == Success(g)
  {
    SaveLoad(g, true);
  }

  /**
   * What the two number inputs of a row hand back (lines 126-135): None when the operator
   * left the widget at the value it was given.
   */
  datatype GoalInput = GoalInput(weight: Option<real>, calories: Option<real>)

  const Untouched := GoalInput(None, None)

  /** Lines 124-125: the weight target given to the input is the stored one when at least 30, otherwise 60.0. */
  function ShownWeight(stored: real): (w: real)
    ensures w >= MinWeightTarget
    ensures stored >= MinWeightTarget ==> w == stored
    ensures stored < MinWeightTarget ==> w == DefaultWeightTarget
  {
    if stored >= MinWeightTarget then stored else DefaultWeightTarget
  }

  /**
   * Line 119: the month shown for row `i`, from 年月 when the table has that column and
   * otherwise the fallback `f"2025-{6+i:02d}"`; either way it is the row's own month.
   */
  function ShownLabel(g: Goals, i: int): (l: string)
    requires WellFormedGoals(g) && 0 <= i < |g.rows|
    ensures l == g.rows[i].monthLabel
  {
    FallbackLabel(i);
    if g.labelColumn == MonthColumn then g.rows[i].monthLabel else "2025-" + Digits(6 + i, 2)
  }

  /** The fallback label of line 119 for row `i` is the `i`-th window month. */
  lemma FallbackLabel(i: int)
    requires 0 <= i < |Window()|
    ensures "2025-" + Digits(6 + i, 2) == Window()[i]
  {
    WindowAt(i);
    YearDigits();
    assert Label(YearMonth(2025, 6 + i)) == "2025" + "-" + Digits(6 + i, 2);
    assert "2025" + "-" == "2025-";
  }

  /** One pass of the loop body of lines 118-135 over one row; the other cells stay. */
  function EditRow(g: GoalRow, input: GoalInput): GoalRow
  {
    g.(weightTarget := input.weight.GetOr(ShownWeight(g.weightTarget)),
       calorieTarget := input.calories.GetOr(g.calorieTarget))
  }

  /** The rows after the loop of lines 118-135. */
  function EditedGoals(g: seq<GoalRow>, inputs: seq<GoalInput>): seq<GoalRow>
    requires |inputs| == |g|
  {
    seq(|g|, i requires 0 <= i < |g| => EditRow(g[i], inputs[i]))
  }

  /** The table after the loop: the same columns, the rows edited. */
  function Edit(g: Goals, inputs: seq<GoalInput>): Goals
    requires |inputs| == |g.rows|
  {
    g.(rows := EditedGoals(g.rows, inputs))
  }

  /** Editing keeps the window months, their order, the columns and the other cells. */
  lemma EditKeepsWindow(g: Goals, inputs: seq<GoalInput>)
    requires WellFormedGoals(g) && |inputs| == |g.rows|
    ensures WellFormedGoals(Edit(g, inputs))
    ensures Edit(g, inputs).labelColumn == g.labelColumn && Edit(g, inputs).carried == g.carried
    ensures forall i :: 0 <= i < |g.rows| ==> Edit(g, inputs).rows[i].others == g.rows[i].others
  {
  }

  /**
   * After the loop every weight target is at least 30 kg, provided every entered weight
   * respects the input's minimum; calorie targets are passed through when untouched.
   */
  lemma EditedWeightsValid(g: seq<GoalRow>, inputs: seq<GoalInput>)
    requires |inputs| == |g|
    requires forall i :: 0 <= i < |inputs| && inputs[i].weight.Some? ==> inputs[i].weight.value >= MinWeightTarget
    ensures var e := EditedGoals(g, inputs);
      forall i :: 0 <= i < |e| ==>
        && e[i].weightTarget >= MinWeightTarget
        && (inputs[i].calories.None? ==> e[i].calorieTarget == g[i].calorieTarget)
  {
  }

  /** A table whose weight targets are all valid is left as it is by an untouched loop. */
  lemma UntouchedKeepsValidTable(g: seq<GoalRow>)
    requires forall i :: 0 <= i < |g| ==> g[i].weightTarget >= MinWeightTarget
    ensures EditedGoals(g, seq(|g|, _ => Untouched)) == g
  {
    var e := EditedGoals(g, seq(|g|, _ => Untouched));
    assert forall i :: 0 <= i < |g| ==> e[i] == g[i];
  }

  /** Running the untouched loop twice is the same as running it once. */
  lemma UntouchedIdempotent(g: seq<GoalRow>)
    ensures var none := seq(|g|, _ => Untouched);
      EditedGoals(EditedGoals(g, none), none) == EditedGoals(g, none)
  {
    var none := seq(|g|, _ => Untouched);
    var once := EditedGoals(g, none);
    UntouchedKeepsValidTable(once);
  }

  /** The clamp is applied in the edit loop, not in load: a stored 20.0 loads as 20.0 and is shown as 60.0. */
  lemma ClampIsInTheEditLoop(t: RawTable, i: int)
    requires IsFrame(t)
    requires MonthColumn in t.columns
    requires 0 <= i < |t.rows| && LabelOf(t.rows[i]) == Text("2025-06")
    requires CellAt(t.rows[i], WeightColumn) == Num(20.0)
    ensures var r := LoadMonthlyGoals(Some(t));
      r.Success? ==> r.value.rows[0].weightTarget == 20.0 && EditRow(r.value.rows[0], Untouched).weightTarget == 60.0
  {
    WindowLabels();
    LoadKeepsStoredTargets(t, i, false);
  }

  /** One page run that ends with the save button (lines 114-138): load, take the inputs, write the file. */
  function SaveRun(file: Option<RawTable>, inputs: seq<GoalInput>, named: bool): Result<RawTable, LoadError>
    requires |inputs| == |Window()|
  {
    match LoadGoals(file, named)
    case Failure(e) => Failure(e)
    case Success(g) => Success(GoalsFile(Edit(g, inputs)))
  }

  /** A run that loads writes the file of the edited table, and that file loads as `Reloaded` says. */
  lemma RunReloads(file: Option<RawTable>, inputs: seq<GoalInput>, named: bool)
    requires |inputs| == |Window()| && LoadGoals(file, named).Success?
    ensures var e := Edit(LoadGoals(file, named).value, inputs);
      && SaveRun(file, inputs, named) == Success(GoalsFile(e))
      && LoadGoals(Some(GoalsFile(e)), named) == Reloaded(e, named)
  {
    var e := Edit(LoadGoals(file, named).value, inputs);
    EditKeepsWindow(LoadGoals(file, named).value, inputs);
    SaveLoad(e, false);
    SaveLoad(e, true);
  }

  /** The first save, without a goals file: its file loads with the labels in "index" and no other column. */
  lemma FirstSave(inputs: seq<GoalInput>)
    requires |inputs| == |Window()|
    ensures var e := Edit(Goals(MonthColumn, {}, DefaultGoals()), inputs);
      && SaveRun(None, inputs, false) == Success(GoalsFile(e))
      && LoadGoals(Some(GoalsFile(e)), false) == Success(e.(labelColumn := "index"))
  {
    RunReloads(None, inputs, false);
  }

  /** A save from a table labelled in "index" with no other column: its file loads with "level_0" added. */
  lemma IndexSave(file: Option<RawTable>, inputs: seq<GoalInput>)
    requires |inputs| == |Window()| && LoadGoals(file, false).Success?
    requires LoadGoals(file, false).value.labelColumn == "index" && LoadGoals(file, false).value.carried == {}
    ensures var e := Edit(LoadGoals(file, false).value, inputs);
      && SaveRun(file, inputs, false) == Success(GoalsFile(e))
      && LoadGoals(Some(GoalsFile(e)), false) == Success(Goals("index", {"level_0"}, Numbered(e.rows)))
  {
    ColumnNamesDistinct();
    var g := LoadGoals(file, false).value;
    var e := Edit(g, inputs);
    EditKeepsWindow(g, inputs);
    assert e.labelColumn == "index" && e.carried == {};
    RunReloads(file, inputs, false);
    ReloadedIndex(e);
  }

  /** `Reloaded` for a table labelled in "index" with no other column. */
  lemma ReloadedIndex(e: Goals)
    requires e.labelColumn == "index" && e.carried == {}
    ensures Reloaded(e, false) == Success(Goals("index", {"level_0"}, Numbered(e.rows)))
  {
    ColumnNamesDistinct();
    assert e.carried + {"level_0"} == {"level_0"};
  }

  /** A save from a table that carries "level_0" writes a file that cannot be loaded. */
  lemma BlockedSave(file: Option<RawTable>, inputs: seq<GoalInput>)
    requires |inputs| == |Window()| && LoadGoals(file, false).Success?
    requires "level_0" in LoadGoals(file, false).value.carried
    ensures SaveRun(file, inputs, false).Success?
    ensures LoadGoals(Some(SaveRun(file, inputs, false).value), false) == Failure(ColumnExists("level_0"))
  {
    RunReloads(file, inputs, false);
  }

  /**
   * Three saves starting without a goals file: the first two files load, the third does not.
   * The second file names its label column "index"; its load adds "level_0" (line 93), which
   * the third save writes too, and line 93 then has no name left for the row numbers.
   */
  lemma ThirdSaveFails(a: seq<GoalInput>, b: seq<GoalInput>, c: seq<GoalInput>)
    requires |a| == |Window()| && |b| == |Window()| && |c| == |Window()|
    ensures var f1 := SaveRun(None, a, false);
      && f1.Success?
      && var f2 := SaveRun(Some(f1.value), b, false);
      && f2.Success?
      && var f3 := SaveRun(Some(f2.value), c, false);
      && f3.Success?
      && LoadMonthlyGoals(Some(f3.value)) == Failure(ColumnExists("level_0"))
  {
    FirstSave(a);
    var f1 := SaveRun(None, a, false).value;
    IndexSave(Some(f1), b);
    var f2 := SaveRun(Some(f1), b, false).value;
    BlockedSave(Some(f2), c);
  }

  /**
   * With the corrected load, every run that loads saves a file that loads again, as the
   * edited table; by induction on the runs, the page keeps loading after any number of saves.
   */
  lemma NamedRunsKeepLoading(file: Option<RawTable>, inputs: seq<GoalInput>)
    requires |inputs| == |Window()| && LoadMonthlyGoalsNamed(file).Success?
    ensures var f := SaveRun(file, inputs, true);
      && f.Success?
      && LoadMonthlyGoalsNamed(Some(f.value)) == Success(Edit(LoadMonthlyGoalsNamed(file).value, inputs))
  {
    var g := LoadMonthlyGoalsNamed(file).value;
    EditKeepsWindow(g, inputs);
    NamedSaveLoadRoundTrip(Edit(g, inputs));
  }

  /** `goals_df` during the page run: seven rows, overwritten one at a time by the input loop. */
  class GoalTable {
    const labelColumn: string
    const carried: set<string>
    var rows: array<GoalRow>

    function Contents(): Goals
      reads this, rows
    {
      Goals(labelColumn, carried, rows[..])
    }

    ghost predicate Valid()
      reads this, rows
    {
      WellFormedGoals(Contents())
    }

    constructor (loaded: Goals)
      requires WellFormedGoals(loaded)
      ensures Valid() && fresh(rows) && Contents() == loaded
    {
      labelColumn := loaded.labelColumn;
      carried := loaded.carried;
      rows := new GoalRow[|loaded.rows|](i requires 0 <= i < |loaded.rows| => loaded.rows[i]);
    }

    /** Lines 118-135: `goals_df.loc[i, ...] = st.number_input(...)` for each row in turn. */
    method ApplyInputs(inputs: seq<GoalInput>)
      requires Valid() && |inputs| == rows.Length
      modifies rows
      ensures Valid()
      ensures Contents() == Edit(old(Contents()), inputs)
    {
      for i := 0 to rows.Length
        invariant forall k :: 0 <= k < i ==> rows[k] == EditRow(old(rows[k]), inputs[k])
        invariant forall k :: i <= k < rows.Length ==> rows[k] == old(rows[k])
      {
        var row := rows[i];
        var weightVal := ShownWeight(row.weightTarget);
        var calorieVal := row.calorieTarget;
        rows[i] := row.(weightTarget := inputs[i].weight.GetOr(weightVal), calorieTarget := inputs[i].calories.GetOr(calorieVal));
      }
      assert rows[..] == EditedGoals(old(rows[..]), inputs);
      EditKeepsWindow(old(Contents()), inputs);
    }

    /**
     * Lines 137-138: the file the save button writes, and what loading it gives: as written,
     * `Reloaded`; with the corrected load, a table labelled in 年月 comes back unchanged.
     */
    method Save() returns (file: RawTable)
      requires Valid()
      ensures file == GoalsFile(Contents())
      ensures LoadMonthlyGoals(Some(file)) == Reloaded(Contents(), false)
      ensures labelColumn == MonthColumn ==> LoadMonthlyGoalsNamed(Some(file)) == Success(Contents())
    {
      file := GoalsFile(Contents());
      SaveLoad(Contents(), false);
      if labelColumn == MonthColumn {
        NamedSaveLoadRoundTrip(Contents());
      }
    }
  }
}
