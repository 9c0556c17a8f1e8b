/** The aggregations of the dashboard page (app.py, `main`): the month's flow
    window, the accumulated window up to the end of the month, the income,
    expense and balance figures, the expense records behind the pie chart and
    the (date, type) totals behind the bar chart. Every function works on the
    transactions after their dates have been parsed. */
module Dashboard {
  import opened DecimalText
  import opened Dates

  /** One transaction as the page uses it. */
  datatype Entry = Entry(date: Date, category: string, kind: string, amount: real)

  const Income: string := "Receita"
  const Expense: string := "Despesa"

  /** The three boolean masks the page applies. */
  datatype Selector =
    | InMonth(year: int, month: int)   // date.year == Y and date.month == M
    | UpTo(year: int, month: int)      // year < Y, or year == Y and month <= M
    | OfKind(kind: string)             // type == k

  predicate Holds(sel: Selector, e: Entry)
  {
    match sel
    case InMonth(y, m) => e.date.year == y && e.date.month == m
    case UpTo(y, m) => e.date.year < y || (e.date.year == y && e.date.month <= m)
    case OfKind(k) => e.kind == k
  }

  /** df[mask]: the entries the selector keeps, in their original order. */
  function Filter(s: seq<Entry>, sel: Selector): (r: seq<Entry>)
    ensures |r| <= |s|
    ensures forall e :: e in r <==> e in s && Holds(sel, e)
  {
    if |s| == 0 then []
    else
      var r := Filter(s[..|s| - 1], sel);
      assert s == s[..|s| - 1] + [s[|s| - 1]];
      if Holds(sel, s[|s| - 1]) then r + [s[|s| - 1]] else r
  }

  /** ["amount"].sum() */
  function Sum(s: seq<Entry>): real
  {
    if |s| == 0 then 0.0 else Sum(s[..|s| - 1]) + s[|s| - 1].amount
  }

  /** Sum of the amounts of the entries of type k. */
  function KindTotal(s: seq<Entry>, k: string): (r: real)
    ensures (forall e :: e in s ==> e.kind != k) ==> r == 0.0
  {
    var f := Filter(s, OfKind(k));
    assert (forall e :: e in s ==> e.kind != k) ==> f == [] by {
      if |f| > 0 { assert f[0] in f; }
    }
    Sum(f)
  }

  /** A reference for the figures: one pass over all transactions that adds
      the amount of each one the mask keeps and whose type is k. */
  function Tally(s: seq<Entry>, sel: Selector, k: string): real
  {
    if |s| == 0 then 0.0
    else Tally(s[..|s| - 1], sel, k) + (if Holds(sel, s[|s| - 1]) && s[|s| - 1].kind == k then s[|s| - 1].amount else 0.0)
  }

  /** The flow window: the selected month of the selected year. */
  function Flow(s: seq<Entry>, y: int, m: int): (r: seq<Entry>)
    ensures |r| <= |s|
    ensures forall e :: e in r <==> e in s && e.date.year == y && e.date.month == m
  {
    Filter(s, InMonth(y, m))
  }

  /** The accumulated window: everything up to the end of the selected month. */
  function Accumulated(s: seq<Entry>, y: int, m: int): (r: seq<Entry>)
    ensures |r| <= |s|
    ensures forall e :: e in r <==> e in s && (e.date.year < y || (e.date.year == y && e.date.month <= m))
  {
    Filter(s, UpTo(y, m))
  }

  /** The month's income: the amounts of the month's transactions of type "Receita". */
  function MonthIncome(s: seq<Entry>, y: int, m: int): (r: real)
    ensures r == Tally(s, InMonth(y, m), Income)
  {
    KindTotalIsTally(s, InMonth(y, m), Income);
    KindTotal(Flow(s, y, m), Income)
  }

  /** The month's expense: the amounts of the month's transactions of type "Despesa". */
  function MonthExpense(s: seq<Entry>, y: int, m: int): (r: real)
    ensures r == Tally(s, InMonth(y, m), Expense)
  {
    KindTotalIsTally(s, InMonth(y, m), Expense);
    KindTotal(Flow(s, y, m), Expense)
  }

  /** Accumulated balance: income minus expense over the accumulated window. */
  function Balance(s: seq<Entry>, y: int, m: int): (r: real)
    ensures r == Tally(s, UpTo(y, m), Income) - Tally(s, UpTo(y, m), Expense)
  {
    KindTotalIsTally(s, UpTo(y, m), Income);
    KindTotalIsTally(s, UpTo(y, m), Expense);
    KindTotal(Accumulated(s, y, m), Income) - KindTotal(Accumulated(s, y, m), Expense)
  }

  /** The records the pie chart is drawn from: the month's expenses, in order. */
  function ExpenseSlices(s: seq<Entry>, y: int, m: int): (r: seq<Entry>)
    ensures |r| <= |s|
    ensures forall e :: e in r <==> e in s && e.date.year == y && e.date.month == m && e.kind == Expense
  {
    Filter(Flow(s, y, m), OfKind(Expense))
  }

  // ---------------------------------------------------------------------------
  // Filters and sums

  lemma FilterSnoc(s: seq<Entry>, e: Entry, sel: Selector)
    ensures Filter(s + [e], sel) == Filter(s, sel) + (if Holds(sel, e) then [e] else [])
  {
    assert (s + [e])[..|s|] == s;
  }

  lemma SumSnoc(s: seq<Entry>, e: Entry)
    ensures Sum(s + [e]) == Sum(s) + e.amount
  {
    assert (s + [e])[..|s|] == s;
  }

  lemma KindTotalSnoc(s: seq<Entry>, e: Entry, k: string)
    ensures KindTotal(s + [e], k) == KindTotal(s, k) + (if e.kind == k then e.amount else 0.0)
  {
    FilterSnoc(s, e, OfKind(k));
    if e.kind == k {
      SumSnoc(Filter(s, OfKind(k)), e);
    }
  }

  /** Summing the type-k part of a selection is the one-pass tally. */
  lemma {:induction false} KindTotalIsTally(s: seq<Entry>, sel: Selector, k: string)
    ensures KindTotal(Filter(s, sel), k) == Tally(s, sel, k)
  {
    if |s| > 0 {
      var s', e := s[..|s| - 1], s[|s| - 1];
      assert s == s' + [e];
      KindTotalIsTally(s', sel, k);
      FilterSnoc(s', e, sel);
      if Holds(sel, e) {
        KindTotalSnoc(Filter(s', sel), e, k);
      }
    }
  }

  /** Filtering a selection by a weaker mask changes nothing; filtering a
      selection by a stronger mask is the same as filtering the whole. */
  lemma {:induction false} FilterNarrow(s: seq<Entry>, strong: Selector, weak: Selector)
    requires forall e :: Holds(strong, e) ==> Holds(weak, e)
    ensures Filter(Filter(s, weak), strong) == Filter(s, strong)
  {
    if |s| > 0 {
      var s', e := s[..|s| - 1], s[|s| - 1];
      assert s == s' + [e];
      FilterNarrow(s', strong, weak);
      FilterSnoc(s', e, weak);
      FilterSnoc(s', e, strong);
      FilterSnoc(Filter(s', weak), e, strong);
    }
  }

  /** Two masks that agree on every entry of s select the same entries. */
  lemma {:induction false} FilterAgree(s: seq<Entry>, a: Selector, b: Selector)
    requires forall e :: e in s ==> (Holds(a, e) <==> Holds(b, e))
    ensures Filter(s, a) == Filter(s, b)
  {
    if |s| > 0 {
      var s', e := s[..|s| - 1], s[|s| - 1];
      assert s == s' + [e];
      FilterAgree(s', a, b);
    }
  }

  /** Filtering keeps order: a filtered concatenation is the concatenation of the filtered parts. */
  lemma {:induction false} FilterAppend(a: seq<Entry>, b: seq<Entry>, sel: Selector)
    ensures Filter(a + b, sel) == Filter(a, sel) + Filter(b, sel)
  {
    if |b| == 0 {
      assert a + b == a;
    } else {
      var b', e := b[..|b| - 1], b[|b| - 1];
      assert a + b == (a + b') + [e];
      assert b == b' + [e];
      FilterAppend(a, b', sel);
      FilterSnoc(a + b', e, sel);
      FilterSnoc(b', e, sel);
    }
  }

  // ---------------------------------------------------------------------------
  // The two windows

  /** The flow window lies inside the accumulated window: it is exactly the
      selected month's part of it. */
  lemma FlowWithinAccumulated(s: seq<Entry>, y: int, m: int)
    ensures Filter(Accumulated(s, y, m), InMonth(y, m)) == Flow(s, y, m)
    ensures forall e :: e in Flow(s, y, m) ==> e in Accumulated(s, y, m)
  {
    FilterNarrow(s, InMonth(y, m), UpTo(y, m));
  }

  /** An entry dated before the selected month. */
  predicate Earlier(e: Entry, y: int, m: int)
  {
    e.date.year < y || (e.date.year == y && e.date.month < m)
  }

  /** The two windows coincide exactly when no entry is dated before the
      selected month, that is, when it is the earliest month with data. */
  lemma AccumulatedIsFlowIffEarliest(s: seq<Entry>, y: int, m: int)
    ensures Accumulated(s, y, m) == Flow(s, y, m) <==> forall e :: e in s ==> !Earlier(e, y, m)
  {
    if forall e :: e in s ==> !Earlier(e, y, m) {
      FilterAgree(s, UpTo(y, m), InMonth(y, m));
    } else {
      var e :| e in s && Earlier(e, y, m);
      assert e in Accumulated(s, y, m) && e !in Flow(s, y, m);
    }
  }

  /** The calendar month before (y, m). */
  function PrevMonth(y: int, m: int): (p: (int, int))
    requires 1 <= m <= 12
    ensures 1 <= p.1 <= 12
  {
    if m == 1 then (y - 1, 12) else (y, m - 1)
  }

  predicate ValidEntries(s: seq<Entry>)
  {
    forall i :: 0 <= i < |s| ==> ValidDate(s[i].date)
  }

  /** Adding one entry to the list adds its amount to a selection's total of
      type k exactly when the selector keeps it and its type is k. */
  lemma SelectedTotalSnoc(s: seq<Entry>, e: Entry, sel: Selector, k: string)
    ensures KindTotal(Filter(s + [e], sel), k)
            == KindTotal(Filter(s, sel), k) + (if Holds(sel, e) && e.kind == k then e.amount else 0.0)
  {
    FilterSnoc(s, e, sel);
    if Holds(sel, e) {
      KindTotalSnoc(Filter(s, sel), e, k);
    }
  }

  /** A dated entry up to the end of a month is either up to the end of the
      month before or in that month, never both. */
  lemma MonthSplit(e: Entry, y: int, m: int)
    requires 1 <= m <= 12 && 1 <= e.date.month <= 12
    ensures var (py, pm) := PrevMonth(y, m);
      (Holds(UpTo(y, m), e) <==> Holds(UpTo(py, pm), e) || Holds(InMonth(y, m), e))
      && !(Holds(UpTo(py, pm), e) && Holds(InMonth(y, m), e))
  {
  }

  lemma ValidEntriesPrefix(s: seq<Entry>)
    requires |s| > 0 && ValidEntries(s)
    ensures ValidEntries(s[..|s| - 1]) && ValidDate(s[|s| - 1].date)
  {
  }

  /** The accumulated total of one type grows month by month by that month's flow. */
  lemma {:induction false} WindowStep(s: seq<Entry>, y: int, m: int, k: string)
    requires 1 <= m <= 12 && ValidEntries(s)
    ensures var (py, pm) := PrevMonth(y, m);
      KindTotal(Accumulated(s, y, m), k) == KindTotal(Accumulated(s, py, pm), k) + KindTotal(Flow(s, y, m), k)
  {
    var (py, pm) := PrevMonth(y, m);
    if |s| > 0 {
      var s', e := s[..|s| - 1], s[|s| - 1];
      assert s == s' + [e];
      ValidEntriesPrefix(s);
      WindowStep(s', y, m, k);
      SelectedTotalSnoc(s', e, UpTo(y, m), k);
      SelectedTotalSnoc(s', e, UpTo(py, pm), k);
      SelectedTotalSnoc(s', e, InMonth(y, m), k);
      MonthSplit(e, y, m);
    }
  }

  /** The accumulated balance at the end of a month is the balance at the end
      of the month before plus that month's income minus its expense. */
  lemma BalanceStep(s: seq<Entry>, y: int, m: int)
    requires 1 <= m <= 12 && ValidEntries(s)
    ensures var (py, pm) := PrevMonth(y, m);
      Balance(s, y, m) == Balance(s, py, pm) + MonthIncome(s, y, m) - MonthExpense(s, y, m)
  {
    WindowStep(s, y, m, Income);
    WindowStep(s, y, m, Expense);
  }

  // ---------------------------------------------------------------------------
  // Types

  /** A transaction of any other type counts neither as income nor as expense. */
  lemma OtherKindIgnored(s: seq<Entry>, e: Entry, y: int, m: int)
    requires e.kind != Income && e.kind != Expense
    ensures MonthIncome(s + [e], y, m) == MonthIncome(s, y, m)
    ensures MonthExpense(s + [e], y, m) == MonthExpense(s, y, m)
    ensures Balance(s + [e], y, m) == Balance(s, y, m)
  {
    FilterSnoc(s, e, InMonth(y, m));
    FilterSnoc(s, e, UpTo(y, m));
    KindTotalSnoc(Flow(s, y, m), e, Income);
    KindTotalSnoc(Flow(s, y, m), e, Expense);
    KindTotalSnoc(Accumulated(s, y, m), e, Income);
    KindTotalSnoc(Accumulated(s, y, m), e, Expense);
  }

  /** When every transaction is income or expense, the two totals add up to the whole. */
  lemma {:induction false} KindsSplitSum(s: seq<Entry>)
    requires forall e :: e in s ==> e.kind == Income || e.kind == Expense
    ensures Sum(s) == KindTotal(s, Income) + KindTotal(s, Expense)
  {
    if |s| > 0 {
      var s', e := s[..|s| - 1], s[|s| - 1];
      assert s == s' + [e];
      KindsSplitSum(s');
      SumSnoc(s', e);
      KindTotalSnoc(s', e, Income);
      KindTotalSnoc(s', e, Expense);
    }
  }

  /** The pie chart's records are exactly the month's expenses, and they add up
      to the month's expense figure. */
  lemma ExpenseSlicesAreMonthExpenses(s: seq<Entry>, y: int, m: int)
    ensures forall e :: e in ExpenseSlices(s, y, m) <==> e in s && Holds(InMonth(y, m), e) && e.kind == Expense
    ensures Sum(ExpenseSlices(s, y, m)) == MonthExpense(s, y, m)
  {
  }

  // ---------------------------------------------------------------------------
  // The (date, type) group-by behind the bar chart

  type Key = (Date, string)

  /** One row of the grouped frame: a (date, type) pair and the sum of its amounts. */
  datatype Bar = Bar(date: Date, kind: string, total: real)

  function BarKey(b: Bar): Key { (b.date, b.kind) }

  function EntryKey(e: Entry): Key { (e.date, e.kind) }

  /** Code-point lexicographic order of strings, as Python compares them. */
  predicate StrLess(a: string, b: string)
  {
    if |a| == 0 then |b| > 0
    else if |b| == 0 then false
    else if a[0] != b[0] then a[0] < b[0]
    else StrLess(a[1..], b[1..])
  }

  lemma {:induction false} StrLessOrder(a: string, b: string, c: string)
    ensures !StrLess(a, a)
    ensures StrLess(a, b) && StrLess(b, c) ==> StrLess(a, c)
    ensures a == b || StrLess(a, b) || StrLess(b, a)
    ensures !(StrLess(a, b) && StrLess(b, a))
  {
    if |a| > 0 && |b| > 0 && |c| > 0 {
      StrLessOrder(a[1..], b[1..], c[1..]);
      if a[0] == b[0] && a[1..] == b[1..] {
        assert a == [a[0]] + a[1..] && b == [b[0]] + b[1..];
      }
    } else if |a| > 0 && |b| > 0 {
      StrLessOrder(a[1..], b[1..], a[1..]);
      if a[0] == b[0] && a[1..] == b[1..] {
        assert a == [a[0]] + a[1..] && b == [b[0]] + b[1..];
      }
    } else if |a| > 0 {
      StrLessOrder(a[1..], a[1..], a[1..]);
    }
  }

  /** groupby's key order: by date, then by type. */
  predicate KeyLess(a: Key, b: Key)
  {
    DateBefore(a.0, b.0) || (a.0 == b.0 && StrLess(a.1, b.1))
  }

  lemma KeyLessOrder(a: Key, b: Key, c: Key)
    ensures !KeyLess(a, a)
    ensures KeyLess(a, b) && KeyLess(b, c) ==> KeyLess(a, c)
    ensures a == b || KeyLess(a, b) || KeyLess(b, a)
  {
    DateBeforeOrder(a.0, b.0, c.0);
    StrLessOrder(a.1, b.1, c.1);
  }

  /** Keys strictly increase along the bars, so no key appears twice. */
  predicate SortedBars(bars: seq<Bar>)
  {
    forall i, j :: 0 <= i < j < |bars| ==> KeyLess(BarKey(bars[i]), BarKey(bars[j]))
  }

  function BarKeys(bars: seq<Bar>): set<Key>
  {
    set b | b in bars :: BarKey(b)
  }

  function EntryKeys(s: seq<Entry>): set<Key>
  {
    set e | e in s :: EntryKey(e)
  }

  /** The total shown for a key (0 when it has no bar). */
  function BarTotal(bars: seq<Bar>, key: Key): real
  {
    if |bars| == 0 then 0.0
    else (if BarKey(bars[0]) == key then bars[0].total else 0.0) + BarTotal(bars[1..], key)
  }

  function BarsSum(bars: seq<Bar>): real
  {
    if |bars| == 0 then 0.0 else bars[0].total + BarsSum(bars[1..])
  }

  /** The sum of the amounts of the entries with the given key. */
  function KeyTotal(s: seq<Entry>, key: Key): real
  {
    if |s| == 0 then 0.0
    else KeyTotal(s[..|s| - 1], key) + (if EntryKey(s[|s| - 1]) == key then s[|s| - 1].amount else 0.0)
  }

  /** Adds one entry to the grouped rows, keeping them in key order. */
  function AddToBars(bars: seq<Bar>, e: Entry): seq<Bar>
  {
    if |bars| == 0 then [Bar(e.date, e.kind, e.amount)]
    else if BarKey(bars[0]) == EntryKey(e) then [bars[0].(total := bars[0].total + e.amount)] + bars[1..]
    else if KeyLess(EntryKey(e), BarKey(bars[0])) then [Bar(e.date, e.kind, e.amount)] + bars
    else [bars[0]] + AddToBars(bars[1..], e)
  }

  /** groupby(["date", "type"])["amount"].sum().reset_index(): one bar per
      (date, type) pair of the entries, in key order, the bars adding up to
      the sum of all amounts. */
  function Timeline(s: seq<Entry>): (r: seq<Bar>)
    ensures SortedBars(r)
    ensures BarKeys(r) == EntryKeys(s)
    ensures BarsSum(r) == Sum(s)
  {
    if |s| == 0 then []
    else
      var s', e := s[..|s| - 1], s[|s| - 1];
      assert s == s' + [e];
      AddToBarsSorted(Timeline(s'), e);
      AddToBarsKeys(Timeline(s'), e);
      AddToBarsSum(Timeline(s'), e);
      assert EntryKeys(s) == EntryKeys(s') + {EntryKey(e)};
      AddToBars(Timeline(s'), e)
  }

  lemma BarKeysCons(b: Bar, bars: seq<Bar>)
    ensures BarKeys([b] + bars) == {BarKey(b)} + BarKeys(bars)
  {
    forall key | key in BarKeys([b] + bars) ensures key in {BarKey(b)} + BarKeys(bars) {
      var x :| x in [b] + bars && BarKey(x) == key;
      if x != b { assert x in bars; }
    }
    forall key | key in BarKeys(bars) ensures key in BarKeys([b] + bars) {
      var x :| x in bars && BarKey(x) == key;
      assert x in [b] + bars;
    }
    assert BarKey(b) in BarKeys([b] + bars) by { assert b in [b] + bars; }
  }

  lemma {:induction false} AddToBarsKeys(bars: seq<Bar>, e: Entry)
    ensures BarKeys(AddToBars(bars, e)) == BarKeys(bars) + {EntryKey(e)}
  {
    if |bars| == 0 {
      assert BarKeys([Bar(e.date, e.kind, e.amount)]) == {EntryKey(e)} by {
        BarKeysCons(Bar(e.date, e.kind, e.amount), []);
        assert [Bar(e.date, e.kind, e.amount)] + [] == [Bar(e.date, e.kind, e.amount)];
      }
    } else {
      var r := AddToBars(bars, e);
      assert bars == [bars[0]] + bars[1..];
      BarKeysCons(bars[0], bars[1..]);
      if BarKey(bars[0]) == EntryKey(e) {
        BarKeysCons(r[0], bars[1..]);
      } else if KeyLess(EntryKey(e), BarKey(bars[0])) {
        BarKeysCons(Bar(e.date, e.kind, e.amount), bars);
      } else {
        AddToBarsKeys(bars[1..], e);
        BarKeysCons(bars[0], AddToBars(bars[1..], e));
      }
    }
  }

  lemma {:induction false} AddToBarsSorted(bars: seq<Bar>, e: Entry)
    requires SortedBars(bars)
    ensures SortedBars(AddToBars(bars, e))
  {
    if |bars| > 0 {
      var r := AddToBars(bars, e);
      var b0 := bars[0];
      assert SortedBars(bars[1..]);
      if BarKey(b0) == EntryKey(e) {
        assert forall i :: 1 <= i < |r| ==> r[i] == bars[i];
      } else if KeyLess(EntryKey(e), BarKey(b0)) {
        forall j | 1 <= j < |r| ensures KeyLess(EntryKey(e), BarKey(r[j])) {
          KeyLessOrder(EntryKey(e), BarKey(b0), BarKey(r[j]));
        }
      } else {
        AddToBarsSorted(bars[1..], e);
        AddToBarsKeys(bars[1..], e);
        var rest := AddToBars(bars[1..], e);
        KeyLessOrder(BarKey(b0), EntryKey(e), EntryKey(e));
        forall j | 0 <= j < |rest| ensures KeyLess(BarKey(b0), BarKey(rest[j])) {
          assert BarKey(rest[j]) in BarKeys(rest);
          if BarKey(rest[j]) != EntryKey(e) {
            var b :| b in bars[1..] && BarKey(b) == BarKey(rest[j]);
            var i :| 0 <= i < |bars[1..]| && bars[1..][i] == b;
            assert bars[i + 1] == b;
          }
        }
        assert r == [b0] + rest;
      }
    }
  }

  lemma {:induction false} AddToBarsTotal(bars: seq<Bar>, e: Entry, key: Key)
    ensures BarTotal(AddToBars(bars, e), key) == BarTotal(bars, key) + (if EntryKey(e) == key then e.amount else 0.0)
  {
    if |bars| > 0 {
      var r := AddToBars(bars, e);
      if BarKey(bars[0]) == EntryKey(e) {
        assert r[1..] == bars[1..];
      } else if KeyLess(EntryKey(e), BarKey(bars[0])) {
        assert r[1..] == bars;
      } else {
        AddToBarsTotal(bars[1..], e, key);
        assert r[1..] == AddToBars(bars[1..], e);
      }
    }
  }

  lemma {:induction false} AddToBarsSum(bars: seq<Bar>, e: Entry)
    ensures BarsSum(AddToBars(bars, e)) == BarsSum(bars) + e.amount
  {
    if |bars| > 0 {
      var r := AddToBars(bars, e);
      if BarKey(bars[0]) == EntryKey(e) {
        assert r[1..] == bars[1..];
      } else if KeyLess(EntryKey(e), BarKey(bars[0])) {
        assert r[1..] == bars;
      } else {
        AddToBarsSum(bars[1..], e);
        assert r[1..] == AddToBars(bars[1..], e);
      }
    }
  }

  /** In key order, a bar's total is the total for its key. */
  lemma {:induction false} SortedBarTotal(bars: seq<Bar>, i: nat)
    requires SortedBars(bars) && i < |bars|
    ensures BarTotal(bars, BarKey(bars[i])) == bars[i].total
  {
    var key := BarKey(bars[i]);
    if i == 0 {
      BarTotalAbsent(bars[1..], key);
    } else {
      assert BarKey(bars[0]) != key by { KeyLessOrder(BarKey(bars[0]), key, key); }
      assert SortedBars(bars[1..]);
      SortedBarTotal(bars[1..], i - 1);
    }
  }

  lemma {:induction false} BarTotalAbsent(bars: seq<Bar>, key: Key)
    requires forall j :: 0 <= j < |bars| ==> KeyLess(key, BarKey(bars[j]))
    ensures BarTotal(bars, key) == 0.0
  {
    if |bars| > 0 {
      KeyLessOrder(key, key, key);
      BarTotalAbsent(bars[1..], key);
    }
  }

  /** Every key's total on the timeline is the sum of the amounts with that key. */
  lemma {:induction false} TimelineTotals(s: seq<Entry>, key: Key)
    ensures BarTotal(Timeline(s), key) == KeyTotal(s, key)
  {
    if |s| > 0 {
      TimelineTotals(s[..|s| - 1], key);
      AddToBarsTotal(Timeline(s[..|s| - 1]), s[|s| - 1], key);
    }
  }

  /** Each bar of the timeline carries the sum of the amounts of its (date, type). */
  lemma TimelineBar(s: seq<Entry>, i: nat)
    requires i < |Timeline(s)|
    ensures Timeline(s)[i].total == KeyTotal(s, BarKey(Timeline(s)[i]))
    ensures BarKey(Timeline(s)[i]) in EntryKeys(s)
  {
    SortedBarTotal(Timeline(s), i);
    TimelineTotals(s, BarKey(Timeline(s)[i]));
  }

  // ---------------------------------------------------------------------------
  // The page

  /** What the page shows for a month. */
  datatype Kpis = Kpis(balance: real, income: real, expense: real, slices: seq<Entry>, timeline: seq<Bar>)

  /** None when there is nothing to show: no transactions at all, or none in
      the selected month (the page stops early in both cases). */
  function Dashboard(s: seq<Entry>, y: int, m: int): (r: Option<Kpis>)
    ensures r.None? <==> forall e :: e in s ==> !Holds(InMonth(y, m), e)
  {
    if |s| == 0 then None
    else
      var flow := Flow(s, y, m);
      if |flow| == 0 then None
      else
        assert flow[0] in flow;
        Some(Kpis(Balance(s, y, m), MonthIncome(s, y, m), MonthExpense(s, y, m),
                     ExpenseSlices(s, y, m), Timeline(flow)))
  }

  /** When the month has data and every transaction is income or expense, the
      timeline's bars add up to the month's income plus its expense, and the
      timeline is not empty. */
  lemma DashboardTotals(s: seq<Entry>, y: int, m: int)
    requires Dashboard(s, y, m).Some?
    requires forall e :: e in s ==> e.kind == Income || e.kind == Expense
    ensures var k := Dashboard(s, y, m).value;
      BarsSum(k.timeline) == k.income + k.expense && |k.timeline| > 0
  {
    var flow := Flow(s, y, m);
    KindsSplitSum(flow);
    assert EntryKey(flow[0]) in EntryKeys(flow);
  }

  // ---------------------------------------------------------------------------
  // A worked example: a salary and a purchase in January, a purchase in February

  function Sample(): seq<Entry>
  {
    [Entry(Date(2024, 1, 10), "Salary", Income, 1000.0),
     Entry(Date(2024, 1, 15), "Food", Expense, 200.0),
     Entry(Date(2024, 2, 1), "Food", Expense, 50.0)]
  }

  /** In January both windows hold the two January entries: nothing is dated earlier. */
  lemma SampleJanuaryWindows()
    ensures Flow(Sample(), 2024, 1) == Sample()[..2]
    ensures Accumulated(Sample(), 2024, 1) == Sample()[..2]
  {
    var s := Sample();
    assert s == s[..2] + [s[2]] && s[..2] == s[..1] + [s[1]] && s[..1] == [] + [s[0]];
    FilterSnoc([], s[0], InMonth(2024, 1));
    FilterSnoc(s[..1], s[1], InMonth(2024, 1));
    FilterSnoc(s[..2], s[2], InMonth(2024, 1));
    FilterSnoc([], s[0], UpTo(2024, 1));
    FilterSnoc(s[..1], s[1], UpTo(2024, 1));
    FilterSnoc(s[..2], s[2], UpTo(2024, 1));
  }

  /** The four tallies of the sample, one prefix at a time. */
  lemma SampleTallies(sel: Selector, k: string)
    ensures var s := Sample();
      Tally(s, sel, k) == Tally(s[..2], sel, k) + (if Holds(sel, s[2]) && s[2].kind == k then s[2].amount else 0.0)
      && Tally(s[..2], sel, k) == Tally(s[..1], sel, k) + (if Holds(sel, s[1]) && s[1].kind == k then s[1].amount else 0.0)
      && Tally(s[..1], sel, k) == (if Holds(sel, s[0]) && s[0].kind == k then s[0].amount else 0.0)
  {
    var s := Sample();
    assert s[..2][..1] == s[..1] && s[..1][..0] == [];
  }

  lemma SampleJanuary()
    ensures MonthIncome(Sample(), 2024, 1) == 1000.0
    ensures MonthExpense(Sample(), 2024, 1) == 200.0
    ensures Balance(Sample(), 2024, 1) == 800.0
  {
    KindsDiffer();
    SampleTallies(InMonth(2024, 1), Income);
    SampleTallies(InMonth(2024, 1), Expense);
    SampleTallies(UpTo(2024, 1), Income);
    SampleTallies(UpTo(2024, 1), Expense);
  }

  lemma KindsDiffer()
    ensures Income != Expense
  {
    assert Income[0] != Expense[0];
  }

  /** In February the flow window holds the one February entry, while the
      accumulated window holds all three. */
  lemma SampleFebruaryWindows()
    ensures Flow(Sample(), 2024, 2) == [Sample()[2]]
    ensures Accumulated(Sample(), 2024, 2) == Sample()
  {
    var s := Sample();
    assert s == s[..2] + [s[2]] && s[..2] == s[..1] + [s[1]] && s[..1] == [] + [s[0]];
    FilterSnoc([], s[0], InMonth(2024, 2));
    FilterSnoc(s[..1], s[1], InMonth(2024, 2));
    FilterSnoc(s[..2], s[2], InMonth(2024, 2));
    FilterSnoc([], s[0], UpTo(2024, 2));
    FilterSnoc(s[..1], s[1], UpTo(2024, 2));
    FilterSnoc(s[..2], s[2], UpTo(2024, 2));
  }

  lemma SampleFebruary()
    ensures MonthIncome(Sample(), 2024, 2) == 0.0
    ensures MonthExpense(Sample(), 2024, 2) == 50.0
    ensures Balance(Sample(), 2024, 2) == 750.0
  {
    KindsDiffer();
    SampleTallies(InMonth(2024, 2), Income);
    SampleTallies(InMonth(2024, 2), Expense);
    SampleTallies(UpTo(2024, 2), Income);
    SampleTallies(UpTo(2024, 2), Expense);
  }
}
