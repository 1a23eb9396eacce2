/** The daily record table: rows of (date, weight, distance, calories), appended by the input form. */
module Records {
  import opened Wrappers
  import opened Calendar

  /** One row of the records file. `date` is None where `pd.to_datetime(..., errors="coerce")` gave NaT. */
  datatype Record = Record(date: Option<Date>, weight: real, distance: real, calories: real)

  /** The nearest integer to `y`, halves going to the even neighbour (Python's `round`). */
  function RoundHalfEven(y: real): (n: int)
    ensures -1.0 / 2.0 <= n as real - y <= 1.0 / 2.0
    ensures n == y.Floor || n == y.Floor + 1
    ensures y - y.Floor as real == 1.0 / 2.0 ==> n % 2 == 0
  {
    var f := y.Floor;
    var frac := y - f as real;
    if frac < 1.0 / 2.0 then f
    else if frac > 1.0 / 2.0 then f + 1
    else if f % 2 == 0 then f
    else f + 1
  }

  lemma RoundHalfEvenExact(n: int)
    ensures RoundHalfEven(n as real) == n
  {
    assert (n as real).Floor == n;
  }

  lemma RoundHalfEvenMonotone(x: real, y: real)
    requires x <= y
    ensures RoundHalfEven(x) <= RoundHalfEven(y)
  {
    var fx, fy := x.Floor, y.Floor;
    if fx < fy {
      assert RoundHalfEven(x) <= fx + 1 <= fy <= RoundHalfEven(y);
    }
  }

  /** `round(x, 2)` over the reals: the nearest hundredth, halves to even. */
  function RoundTo2(x: real): (r: real)
    ensures -1.0 / 200.0 <= r - x <= 1.0 / 200.0
  {
    RoundHalfEven(x * 100.0) as real / 100.0
  }

  /** A value that already has at most two decimals is left as it is. */
  lemma RoundTo2OfHundredths(n: int)
    ensures RoundTo2(n as real / 100.0) == n as real / 100.0
  {
    assert (n as real / 100.0) * 100.0 == n as real;
    RoundHalfEvenExact(n);
  }

  lemma RoundTo2Idempotent(x: real)
    ensures RoundTo2(RoundTo2(x)) == RoundTo2(x)
  {
    RoundTo2OfHundredths(RoundHalfEven(x * 100.0));
  }

  lemma RoundTo2Monotone(x: real, y: real)
    requires x <= y
    ensures RoundTo2(x) <= RoundTo2(y)
  {
    RoundHalfEvenMonotone(x * 100.0, y * 100.0);
  }

  /** Line 50: the calorie estimate, `round(distance * 60, 2)`. */
  function Calories(distance: real): (c: real)
    ensures -1.0 / 200.0 <= c - distance * 60.0 <= 1.0 / 200.0
  {
    RoundTo2(distance * 60.0)
  }

  /** The form only hands back distances >= 0, and such a distance never burns negative calories. */
  lemma CaloriesNonNegative(distance: real)
    requires distance >= 0.0
    ensures Calories(distance) >= 0.0
  {
    RoundTo2Monotone(0.0, distance * 60.0);
    RoundTo2OfHundredths(0);
  }

  /** A longer run never gets fewer calories. */
  lemma CaloriesMonotone(d1: real, d2: real)
    requires d1 <= d2
    ensures Calories(d1) <= Calories(d2)
  {
    RoundTo2Monotone(d1 * 60.0, d2 * 60.0);
  }

  /** The date order of `sort_values("日付")`: by day, with NaT after every date. */
  function DayKey(d: Date): int
  {
    (Ord(MonthOf(d)) * 31) + d.day - 1
  }

  /** Day keys compare as the dates do: by year, then month, then day; equal keys are equal dates. */
  lemma DayKeyOrder(a: Date, b: Date)
    ensures DayKey(a) < DayKey(b) <==>
      a.year < b.year || (a.year == b.year && a.month < b.month) || (a.year == b.year && a.month == b.month && a.day < b.day)
    ensures DayKey(a) == DayKey(b) <==> a == b
  {
  }

  /** `sort_values("日付")` puts `a` no later than `b`: NaT sorts after every date. */
  predicate DateLe(a: Option<Date>, b: Option<Date>)
  {
    b.None? || (a.Some? && DayKey(a.value) <= DayKey(b.value))
  }

  ghost predicate SortedByDate(s: seq<Record>)
  {
    forall i, j :: 0 <= i < j < |s| ==> DateLe(s[i].date, s[j].date)
  }

  function InsertByDate(s: seq<Record>, x: Record): (r: seq<Record>)
    requires SortedByDate(s)
    ensures SortedByDate(r)
    ensures multiset(r) == multiset(s) + multiset{x}
  {
    if s == [] then [x]
    else if DateLe(x.date, s[0].date) then
      assert forall i :: 0 <= i < |s| ==> DateLe(x.date, s[i].date);
      [x] + s
    else
      var tail := InsertByDate(s[1..], x);
      assert s == [s[0]] + s[1..];
      assert forall y :: y in multiset(tail) ==> DateLe(s[0].date, y.date) by {
        forall y | y in multiset(tail) ensures DateLe(s[0].date, y.date) {
          assert y in multiset(s[1..]) + multiset{x};
          if y in multiset(s[1..]) {
            var j :| 0 <= j < |s[1..]| && s[1..][j] == y;
            assert s[j + 1] == y;
          }
        }
      }
      assert forall j :: 0 <= j < |tail| ==> DateLe(s[0].date, tail[j].date) by {
        forall j | 0 <= j < |tail| ensures DateLe(s[0].date, tail[j].date) {
          assert tail[j] in multiset(tail);
        }
      }
      [s[0]] + tail
  }

  /** Lines 63 and 211, `df.sort_values("日付")`: the same rows in date order (tie order unspecified). */
  function SortByDate(s: seq<Record>): (r: seq<Record>)
    ensures SortedByDate(r)
    ensures multiset(r) == multiset(s)
  {
    if s == [] then []
    else
      assert s == s[..|s| - 1] + [s[|s| - 1]];
      InsertByDate(SortByDate(s[..|s| - 1]), s[|s| - 1])
  }

  /** The last row of the date-sorted table has a latest date among all rows. */
  lemma SortedLastIsLatest(s: seq<Record>)
    requires s != []
    ensures var r := SortByDate(s);
      |r| == |s| && r[|r| - 1] in s && forall j :: 0 <= j < |s| ==> DateLe(s[j].date, r[|r| - 1].date)
  {
    var r := SortByDate(s);
    assert |r| == |multiset(r)| == |multiset(s)| == |s|;
    assert r[|r| - 1] in multiset(r);
    forall j | 0 <= j < |s| ensures DateLe(s[j].date, r[|r| - 1].date) {
      assert s[j] in multiset(s);
      assert s[j] in multiset(r);
      var k :| 0 <= k < |r| && r[k] == s[j];
      if k < |r| - 1 {
        assert DateLe(r[k].date, r[|r| - 1].date);
      }
    }
  }

  /** Lines 211-212, `sort_values("日付").iloc[-1]`: the last row in date order, a record with a latest date. */
  function LatestRecord(s: seq<Record>): (x: Record)
    requires s != []
    ensures exists i :: 0 <= i < |s| && s[i] == x
    ensures forall j :: 0 <= j < |s| ==> DateLe(s[j].date, x.date)
  {
    SortedLastIsLatest(s);
    var sorted := SortByDate(s);
    sorted[|sorted| - 1]
  }

  /**
   * The records table `df` of one page run. `loaded` stands for what `load_data` returns,
   * which is the cached first load of the server process rather than the current file; a
   * form submission appends to it and writes the whole table back to the records file.
   */
  class RecordStore {
    var records: seq<Record>

    constructor (loaded: seq<Record>)
      ensures records == loaded
    {
      records := loaded;
    }

    /** Lines 49-58: append the submitted row; every earlier row is kept, in order. */
    method Append(d: Date, weight: real, distance: real) returns (added: Record)
      modifies this
      ensures added == Record(Some(d), weight, distance, Calories(distance))
      ensures records == old(records) + [added]
      ensures |records| == |old(records)| + 1 && records[..|old(records)|] == old(records)
    {
      var calorie := Calories(distance);
      added := Record(Some(d), weight, distance, calorie);
      records := records + [added];
    }
  }
}
