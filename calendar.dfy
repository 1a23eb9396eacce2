/** Calendar dates, year-months, their `YYYY-MM` labels and the fixed goal window. */
module Calendar {
  import Lex

  type Year = y: int | 1 <= y <= 9999 witness 1
  type MonthNum = m: int | 1 <= m <= 12 witness 1
  type DayNum = d: int | 1 <= d <= 31 witness 1

  /** A calendar month, what pandas calls a monthly Period. */
  datatype YearMonth = YearMonth(year: Year, month: MonthNum)

  /** A calendar date without time of day. */
  datatype Date = Date(year: Year, month: MonthNum, day: DayNum)

  /** `to_period("M")`: the month a date falls in. */
  function MonthOf(d: Date): YearMonth
  {
    YearMonth(d.year, d.month)
  }

  /** Months counted from January of year 0; consecutive months have consecutive ordinals. */
  function Ord(ym: YearMonth): int
  {
    ym.year * 12 + ym.month - 1
  }

  /** The first month after `ym`. */
  function Next(ym: YearMonth): (r: YearMonth)
    requires ym.year < 9999 || ym.month < 12
    ensures Ord(r) == Ord(ym) + 1
  {
    if ym.month == 12 then YearMonth(ym.year + 1, 1) else YearMonth(ym.year, ym.month + 1)
  }

  /** `pd.date_range(first, last, freq='MS')`: every month from `first` to `last`, inclusive. */
  function MonthRange(first: YearMonth, last: YearMonth): (r: seq<YearMonth>)
    requires Ord(first) <= Ord(last)
    ensures |r| == Ord(last) - Ord(first) + 1
    ensures forall i :: 0 <= i < |r| ==> Ord(r[i]) == Ord(first) + i
    decreases Ord(last) - Ord(first)
  {
    if Ord(first) == Ord(last) then [first]
    else [first] + MonthRange(Next(first), last)
  }

  function Pow10(n: nat): nat
  {
    if n == 0 then 1 else 10 * Pow10(n - 1)
  }

  function DigitChar(d: int): char
    requires 0 <= d <= 9
  {
    "0123456789"[d]
  }

  /** The last `width` decimal digits of `x`, zero-padded on the left. */
  function Digits(x: nat, width: nat): (s: string)
    ensures |s| == width
  {
    if width == 0 then [] else Digits(x / 10, width - 1) + [DigitChar(x % 10)]
  }

  /** `strftime("%Y-%m")` and `str(Period)`: the month's `YYYY-MM` label. */
  function Label(ym: YearMonth): (s: string)
    ensures |s| == 7 && s[4] == '-'
  {
    Digits(ym.year, 4) + "-" + Digits(ym.month, 2)
  }

  /** Zero-padded digit strings of one width compare as the numbers they spell. */
  lemma {:induction false} DigitsOrder(x: nat, y: nat, width: nat)
    requires x < Pow10(width) && y < Pow10(width)
    ensures Lex.Less(Digits(x, width), Digits(y, width)) <==> x < y
    ensures Digits(x, width) == Digits(y, width) <==> x == y
  {
    if width == 0 {
      assert x == 0 && y == 0;
    } else {
      var hx, hy := Digits(x / 10, width - 1), Digits(y / 10, width - 1);
      var cx, cy := [DigitChar(x % 10)], [DigitChar(y % 10)];
      DigitsOrder(x / 10, y / 10, width - 1);
      Lex.AppendEqualLength(hx, hy, cx, cy);
      assert Lex.Less(cx, cy) <==> x % 10 < y % 10;
      assert cx == cy <==> x % 10 == y % 10;
      assert hx + cx == hy + cy <==> hx == hy && cx == cy by {
        if hx + cx == hy + cy {
          assert hx == (hx + cx)[..width - 1] && hy == (hy + cy)[..width - 1];
          assert cx == (hx + cx)[width - 1..] && cy == (hy + cy)[width - 1..];
        }
      }
      assert x == (x / 10) * 10 + x % 10 && y == (y / 10) * 10 + y % 10;
    }
  }

  /** String order on labels is chronological order: sorting by label sorts by month. */
  lemma LabelOrder(a: YearMonth, b: YearMonth)
    ensures Lex.Less(Label(a), Label(b)) <==> Ord(a) < Ord(b)
    ensures Label(a) == Label(b) <==> a == b
  {
    assert Pow10(4) == 10000 && Pow10(2) == 100;
    DigitsOrder(a.year, b.year, 4);
    DigitsOrder(a.month, b.month, 2);
    var ya, yb := Digits(a.year, 4), Digits(b.year, 4);
    var ma, mb := "-" + Digits(a.month, 2), "-" + Digits(b.month, 2);
    assert Label(a) == ya + ma && Label(b) == yb + mb;
    Lex.AppendEqualLength(ya, yb, ma, mb);
    Lex.AppendEqualLength("-", "-", Digits(a.month, 2), Digits(b.month, 2));
    Lex.Irreflexive("-");
    assert ya + ma == yb + mb <==> ya == yb && ma == mb by {
      if ya + ma == yb + mb {
        assert ya == (ya + ma)[..4] && yb == (yb + mb)[..4];
        assert ma == (ya + ma)[4..] && mb == (yb + mb)[4..];
      }
    }
    assert ma == mb <==> Digits(a.month, 2) == Digits(b.month, 2) by {
      if ma == mb {
        assert Digits(a.month, 2) == ma[1..] && Digits(b.month, 2) == mb[1..];
      }
    }
  }

  /** Labels of distinct months are distinct strings. */
  lemma LabelInjective(a: YearMonth, b: YearMonth)
    requires a != b
    ensures Label(a) != Label(b)
  {
    LabelOrder(a, b);
  }

  const FirstGoalMonth := YearMonth(2025, 6)
  const LastGoalMonth := YearMonth(2025, 12)

  /** The goal window, line 86: the labels of every month from 2025-06 to 2025-12, in order. */
  function Window(): (w: seq<string>)
    ensures |w| == 7
    ensures forall i, j :: 0 <= i < j < |w| ==> Lex.Less(w[i], w[j])
  {
    var ms := MonthRange(FirstGoalMonth, LastGoalMonth);
    var w := seq(|ms|, i requires 0 <= i < |ms| => Label(ms[i]));
    assert forall i, j :: 0 <= i < j < |w| ==> Lex.Less(w[i], w[j]) by {
      forall i, j | 0 <= i < j < |w|
        ensures Lex.Less(w[i], w[j])
      {
        LabelOrder(ms[i], ms[j]);
      }
    }
    w
  }

  /** The months of the window, one by one. */
  lemma WindowMonths()
    ensures MonthRange(FirstGoalMonth, LastGoalMonth)
      == [YearMonth(2025, 6), YearMonth(2025, 7), YearMonth(2025, 8), YearMonth(2025, 9),
          YearMonth(2025, 10), YearMonth(2025, 11), YearMonth(2025, 12)]
  {
    assert MonthRange(YearMonth(2025, 12), LastGoalMonth) == [YearMonth(2025, 12)];
    assert MonthRange(YearMonth(2025, 11), LastGoalMonth) == [YearMonth(2025, 11)] + MonthRange(YearMonth(2025, 12), LastGoalMonth);
    assert MonthRange(YearMonth(2025, 10), LastGoalMonth) == [YearMonth(2025, 10)] + MonthRange(YearMonth(2025, 11), LastGoalMonth);
    assert MonthRange(YearMonth(2025, 9), LastGoalMonth) == [YearMonth(2025, 9)] + MonthRange(YearMonth(2025, 10), LastGoalMonth);
    assert MonthRange(YearMonth(2025, 8), LastGoalMonth) == [YearMonth(2025, 8)] + MonthRange(YearMonth(2025, 9), LastGoalMonth);
    assert MonthRange(YearMonth(2025, 7), LastGoalMonth) == [YearMonth(2025, 7)] + MonthRange(YearMonth(2025, 8), LastGoalMonth);
  }

  lemma MonthDigits(m: MonthNum)
    ensures Digits(m, 2) == [DigitChar(m / 10), DigitChar(m % 10)]
  {
  }

  lemma YearDigits()
    ensures Digits(2025, 4) == "2025"
  {
    assert Digits(2, 1) == "2";
    assert Digits(20, 2) == "20";
    assert Digits(202, 3) == "202";
  }

  /** The label of a month of 2025. */
  lemma Label2025(m: MonthNum)
    ensures Label(YearMonth(2025, m)) == ['2', '0', '2', '5', '-', DigitChar(m / 10), DigitChar(m % 10)]
  {
    YearDigits();
    MonthDigits(m);
    assert "2025" + "-" == ['2', '0', '2', '5', '-'];
  }

  lemma WindowMonthLabels()
    ensures Window() == [Label(YearMonth(2025, 6)), Label(YearMonth(2025, 7)), Label(YearMonth(2025, 8)),
      Label(YearMonth(2025, 9)), Label(YearMonth(2025, 10)), Label(YearMonth(2025, 11)), Label(YearMonth(2025, 12))]
  {
    WindowMonths();
  }

  /** The `i`-th window label is the label of month `6 + i` of 2025. */
  lemma WindowAt(i: int)
    requires 0 <= i < |Window()|
    ensures 1 <= 6 + i <= 12 && Window()[i] == Label(YearMonth(2025, 6 + i))
  {
    var ms := MonthRange(FirstGoalMonth, LastGoalMonth);
    WindowOfRange(i);
    assert Ord(ms[i]) == Ord(FirstGoalMonth) + i;
    assert ms[i].year == 2025 && ms[i].month == 6 + i;
  }

  /** The `i`-th window label is the label of the `i`-th month of the range. */
  lemma WindowOfRange(i: int)
    requires 0 <= i < |Window()|
    ensures Window()[i] == Label(MonthRange(FirstGoalMonth, LastGoalMonth)[i])
  {
  }

  /** The window spelled out. */
  lemma WindowLabels()
    ensures Window() == ["2025-06", "2025-07", "2025-08", "2025-09", "2025-10", "2025-11", "2025-12"]
  {
    WindowMonthLabels();
    assert DigitChar(0) == '0' && DigitChar(1) == '1' && DigitChar(2) == '2';
    assert DigitChar(6) == '6' && DigitChar(7) == '7' && DigitChar(8) == '8' && DigitChar(9) == '9';
    Label2025(6);
    Label2025(7);
    Label2025(8);
    Label2025(9);
    Label2025(10);
    Label2025(11);
    Label2025(12);
  }
}
