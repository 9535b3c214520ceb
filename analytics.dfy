/**
 * `getAnalytics` (backend/controllers/expenseController.js): the figures
 * computed over a snapshot of all expenses, and the database aggregation
 * that groups the recent ones by calendar month.
 */
module Analytics {
  import opened ExpenseModel

  // ------------------------------------------------------------ reductions
  // Each `reduce` and `filter` of the source runs left to right, so these
  // functions peel off the LAST element: the result for `s` extends the
  // result for all but its last element.

  function Last(s: seq<Expense>): Expense
    requires s != []
  {
    s[|s| - 1]
  }

  function Init(s: seq<Expense>): seq<Expense>
    requires s != []
  {
    s[..|s| - 1]
  }

  /** `expenses.filter(p)`. */
  function Select(s: seq<Expense>, p: Expense -> bool): (r: seq<Expense>)
    ensures |r| <= |s|
    ensures forall e :: e in r <==> e in s && p(e)
  {
    if s == [] then []
    else
      assert s == Init(s) + [Last(s)];
      Select(Init(s), p) + (if p(Last(s)) then [Last(s)] else [])
  }

  /** Nothing is selected when no record qualifies. */
  lemma {:induction false} SelectNone(s: seq<Expense>, p: Expense -> bool)
    requires forall e :: e in s ==> !p(e)
    ensures Select(s, p) == []
  {
    if s != [] {
      assert Last(s) in s;
      SelectNone(Init(s), p);
    }
  }

  /** `expenses.reduce((sum, e) => sum + e.amount, 0)`. */
  function SumAmounts(s: seq<Expense>): (r: real)
    ensures (forall e :: e in s ==> e.amount >= 0.0) ==> r >= 0.0
  {
    if s == [] then 0.0
    else
      assert forall e :: e in Init(s) ==> e in s;
      SumAmounts(Init(s)) + Last(s).amount
  }

  /** `expenses.reduce((sum, e) => sum + e.savings, 0)`. */
  function SumSavings(s: seq<Expense>): (r: real)
    ensures (forall e :: e in s ==> e.savings >= 0.0) ==> r >= 0.0
  {
    if s == [] then 0.0
    else
      assert forall e :: e in Init(s) ==> e in s;
      SumSavings(Init(s)) + Last(s).savings
  }

  lemma {:induction false} SumAmountsAppend(a: seq<Expense>, b: seq<Expense>)
    ensures SumAmounts(a + b) == SumAmounts(a) + SumAmounts(b)
  {
    if b != [] {
      assert Init(a + b) == a + Init(b);
      SumAmountsAppend(a, Init(b));
    } else {
      assert a + b == a;
    }
  }

  /** Sums of valid records are never negative. */
  lemma {:induction false} SumsNonNegative(s: seq<Expense>)
    requires forall e :: e in s ==> ValidExpense(e)
    ensures SumAmounts(s) >= 0.0 && SumSavings(s) >= 0.0
  {
    if s != [] {
      assert Last(s) in s;
      SumsNonNegative(Init(s));
    }
  }

  /** Leaving records out never raises the total of non-negative amounts. */
  lemma {:induction false} SelectSumBound(s: seq<Expense>, p: Expense -> bool)
    requires forall e :: e in s ==> ValidExpense(e)
    ensures SumAmounts(Select(s, p)) <= SumAmounts(s)
  {
    if s != [] {
      assert Last(s) in s;
      SelectSumBound(Init(s), p);
      var rest := Select(Init(s), p);
      if p(Last(s)) {
        assert Init(rest + [Last(s)]) == rest;
      } else {
        assert rest + [] == rest;
      }
    }
  }

  predicate IsOptimizable(e: Expense) {
    e.optimizable
  }

  /** `expenses.filter(e => e.optimizable).length`. */
  function OptimizableCount(s: seq<Expense>): (n: nat)
    ensures n <= |s|
  {
    |Select(s, IsOptimizable)|
  }

  /** The positions of `s` whose record satisfies `p`. */
  function Positions(s: seq<Expense>, p: Expense -> bool): set<int> {
    set i | 0 <= i < |s| && p(s[i])
  }

  lemma PositionsSnoc(s: seq<Expense>, p: Expense -> bool)
    requires s != []
    ensures |Positions(s, p)| == |Positions(Init(s), p)| + (if p(Last(s)) then 1 else 0)
  {
    var before := Positions(Init(s), p);
    var all := Positions(s, p);
    if p(Last(s)) {
      forall i ensures i in all <==> i in before || i == |s| - 1 {
        if 0 <= i < |s| - 1 {
          assert Init(s)[i] == s[i];
        }
      }
      assert all == before + {|s| - 1};
    } else {
      forall i ensures i in all <==> i in before {
        if 0 <= i < |s| - 1 {
          assert Init(s)[i] == s[i];
        }
      }
      assert all == before;
    }
  }

  /**
   * A filter keeps every qualifying record as often as it occurs: the
   * selection is as long as the set of positions whose record qualifies.
   */
  lemma {:induction false} SelectCount(s: seq<Expense>, p: Expense -> bool)
    ensures |Select(s, p)| == |Positions(s, p)|
  {
    if s != [] {
      SelectCount(Init(s), p);
      PositionsSnoc(s, p);
      assert |Select(s, p)| == |Select(Init(s), p)| + (if p(Last(s)) then 1 else 0);
    }
  }

  /** The optimizable count is the number of positions holding an optimizable record. */
  lemma OptimizableCountIsCount(s: seq<Expense>)
    ensures OptimizableCount(s) == |set i | 0 <= i < |s| && s[i].optimizable|
  {
    SelectCount(s, IsOptimizable);
    var flagged := set i | 0 <= i < |s| && s[i].optimizable;
    forall i ensures i in Positions(s, IsOptimizable) <==> i in flagged {
    }
    assert Positions(s, IsOptimizable) == flagged;
  }

  // ---------------------------------------------------- category breakdown

  function InCategory(c: Category): Expense -> bool {
    (e: Expense) => e.category == c
  }

  /** The categories that occur in some record. */
  function CategoriesOf(s: seq<Expense>): set<Category> {
    set e | e in s :: e.category
  }

  /** `acc[c] = (acc[c] || 0) + amount`. */
  function Bump(acc: map<Category, real>, c: Category, amount: real): map<Category, real> {
    acc[c := (if c in acc then acc[c] else 0.0) + amount]
  }

  /**
   * The `categoryBreakdown` reduce. A category is a key exactly when some
   * record has it, and it maps to the sum of that category's amounts.
   */
  function CategoryBreakdown(s: seq<Expense>): (m: map<Category, real>)
    ensures forall c :: c in m <==> c in CategoriesOf(s)
    ensures forall c :: c in m ==> m[c] == SumAmounts(Select(s, InCategory(c)))
  {
    if s == [] then map[]
    else
      var acc := CategoryBreakdown(Init(s));
      BreakdownStep(s, acc);
      Bump(acc, Last(s).category, Last(s).amount)
  }

  /** One step of the reduce keeps both halves of the breakdown's contract. */
  lemma BreakdownStep(s: seq<Expense>, acc: map<Category, real>)
    requires s != []
    requires forall c :: c in acc <==> c in CategoriesOf(Init(s))
    requires forall c :: c in acc ==> acc[c] == SumAmounts(Select(Init(s), InCategory(c)))
    ensures var m := Bump(acc, Last(s).category, Last(s).amount);
            && (forall c :: c in m <==> c in CategoriesOf(s))
            && (forall c :: c in m ==> m[c] == SumAmounts(Select(s, InCategory(c))))
  {
    var e := Last(s);
    var m := Bump(acc, e.category, e.amount);
    CategoriesSnoc(s);
    forall c
      ensures c in m <==> c in CategoriesOf(s)
    {
    }
    forall c | c in m
      ensures m[c] == SumAmounts(Select(s, InCategory(c)))
    {
      SelectCategorySnoc(s, c);
      if c !in acc {
        SelectNone(Init(s), InCategory(c));
      }
    }
  }

  lemma CategoriesSnoc(s: seq<Expense>)
    requires s != []
    ensures CategoriesOf(s) == CategoriesOf(Init(s)) + {Last(s).category}
  {
    assert s == Init(s) + [Last(s)];
  }

  /** Adding a record adds its amount to its own category's sum and nothing to the others. */
  lemma SelectCategorySnoc(s: seq<Expense>, c: Category)
    requires s != []
    ensures SumAmounts(Select(s, InCategory(c)))
            == SumAmounts(Select(Init(s), InCategory(c))) + (if Last(s).category == c then Last(s).amount else 0.0)
  {
    var before := Select(Init(s), InCategory(c));
    var e := Last(s);
    if e.category == c {
      assert Select(s, InCategory(c)) == before + [e];
      assert Init(before + [e]) == before;
    } else {
      assert Select(s, InCategory(c)) == before + [];
      assert before + [] == before;
    }
  }

  /** A breakdown's value for `c`, `0` when `c` is not a key. */
  function Get(m: map<Category, real>, c: Category): real {
    if c in m then m[c] else 0.0
  }

  /** The sum of a breakdown's values over the categories `cs`. */
  function SumOver(m: map<Category, real>, cs: seq<Category>): real {
    if cs == [] then 0.0 else Get(m, cs[0]) + SumOver(m, cs[1..])
  }

  /** The sum of all values of a breakdown. */
  function BreakdownTotal(m: map<Category, real>): real {
    SumOver(m, AllCategories)
  }

  lemma {:induction false} SumOverBump(m: map<Category, real>, cs: seq<Category>, c: Category, amount: real)
    requires forall i, j :: 0 <= i < j < |cs| ==> cs[i] != cs[j]
    ensures SumOver(Bump(m, c, amount), cs) == SumOver(m, cs) + (if c in cs then amount else 0.0)
  {
    if cs != [] {
      SumOverBump(m, cs[1..], c, amount);
      assert c in cs <==> c == cs[0] || c in cs[1..];
    }
  }

  lemma {:induction false} SumOverEmpty(cs: seq<Category>)
    ensures SumOver(map[], cs) == 0.0
  {
    if cs != [] {
      SumOverEmpty(cs[1..]);
    }
  }

  /** The breakdown's values add up to `totalExpenses`. */
  lemma {:induction false} BreakdownSumsToTotal(s: seq<Expense>)
    ensures BreakdownTotal(CategoryBreakdown(s)) == SumAmounts(s)
  {
    if s != [] {
      BreakdownSumsToTotal(Init(s));
      AllCategoriesListed(Last(s).category);
      SumOverBump(CategoryBreakdown(Init(s)), AllCategories, Last(s).category, Last(s).amount);
    } else {
      SumOverEmpty(AllCategories);
    }
  }

  // --------------------------------------------------- savings percentage

  /**
   * `totalExpenses > 0 ? totalSavings / totalExpenses * 100 : 0`, before
   * `toFixed(2)`: the savings as a share of the expenses, guarded against
   * division by zero.
   */
  function SavingsPercentage(totalSavings: real, totalExpenses: real): (p: real)
    ensures totalExpenses > 0.0 ==> p * totalExpenses == totalSavings * 100.0
    ensures totalExpenses <= 0.0 ==> p == 0.0
  {
    if totalExpenses > 0.0 then totalSavings / totalExpenses * 100.0 else 0.0
  }

  lemma PercentageNonNegative(totalSavings: real, totalExpenses: real)
    requires totalSavings >= 0.0
    ensures SavingsPercentage(totalSavings, totalExpenses) >= 0.0
  {
    var p := SavingsPercentage(totalSavings, totalExpenses);
    if totalExpenses > 0.0 && p < 0.0 {
      assert p * totalExpenses < 0.0;
    }
  }

  /** The percentage lies between 0 and 100 when the savings do not exceed the expenses. */
  lemma SavingsPercentageBounds(totalSavings: real, totalExpenses: real)
    requires 0.0 <= totalSavings <= totalExpenses
    ensures 0.0 <= SavingsPercentage(totalSavings, totalExpenses) <= 100.0
  {
    var p := SavingsPercentage(totalSavings, totalExpenses);
    if totalExpenses > 0.0 {
      assert p * totalExpenses == totalSavings * 100.0;
      assert p * totalExpenses <= totalExpenses * 100.0;
    }
  }

  // --------------------------------------------------------- monthly trend

  /** A group's `_id`: `{ year: { $year: '$date' }, month: { $month: '$date' } }`. */
  datatype MonthKey = MonthKey(year: int, month: MonthNumber)

  function MonthOf(d: Date): MonthKey {
    MonthKey(d.year, d.month)
  }

  /** `a` sorts strictly before `b` under `{ '_id.year': 1, '_id.month': 1 }`. */
  predicate MonthBefore(a: MonthKey, b: MonthKey) {
    a.year < b.year || (a.year == b.year && a.month < b.month)
  }

  /** One document of the aggregation's output. */
  datatype TrendEntry = TrendEntry(id: MonthKey, total: real, count: nat)

  /** `$match: { date: { $gte: cutoff } }`. */
  function Within(cutoff: Date): Expense -> bool {
    (e: Expense) => DateLe(cutoff, e.date)
  }

  function InMonth(k: MonthKey): Expense -> bool {
    (e: Expense) => MonthOf(e.date) == k
  }

  /** Each entry's month comes strictly before the next one's. */
  predicate Ascending(t: seq<TrendEntry>) {
    |t| <= 1 || (MonthBefore(t[0].id, t[1].id) && Ascending(t[1..]))
  }

  /** Every group holds at least one record. */
  predicate Populated(t: seq<TrendEntry>) {
    forall i :: 0 <= i < |t| ==> t[i].count >= 1
  }

  /** The months that have an entry. */
  function Months(t: seq<TrendEntry>): set<MonthKey> {
    if t == [] then {} else {t[0].id} + Months(t[1..])
  }

  /** The months in which some record falls. */
  function MonthsOf(s: seq<Expense>): set<MonthKey> {
    set e | e in s :: MonthOf(e.date)
  }

  /** The count of the entries for month `k` (`0` when there is none). */
  function CountFor(t: seq<TrendEntry>, k: MonthKey): nat {
    if t == [] then 0 else (if t[0].id == k then t[0].count else 0) + CountFor(t[1..], k)
  }

  /** The total of the entries for month `k` (`0` when there is none). */
  function TotalFor(t: seq<TrendEntry>, k: MonthKey): real {
    if t == [] then 0.0 else (if t[0].id == k then t[0].total else 0.0) + TotalFor(t[1..], k)
  }

  function SumCounts(t: seq<TrendEntry>): nat {
    if t == [] then 0 else t[0].count + SumCounts(t[1..])
  }

  function SumTotals(t: seq<TrendEntry>): real {
    if t == [] then 0.0 else t[0].total + SumTotals(t[1..])
  }

  /**
   * Adds one record of month `k` with amount `amount` to a grouped, sorted
   * result: the `$sum`s of an existing group grow, or a new group is placed
   * where the order puts it.
   */
  function AddTo(t: seq<TrendEntry>, k: MonthKey, amount: real): (r: seq<TrendEntry>)
    ensures r != []
    ensures t != [] ==> r[0].id == k || r[0].id == t[0].id
    ensures Ascending(t) ==> Ascending(r)
    ensures Populated(t) ==> Populated(r)
    ensures Months(r) == Months(t) + {k}
    ensures SumCounts(r) == SumCounts(t) + 1
    ensures SumTotals(r) == SumTotals(t) + amount
  {
    if t == [] then [TrendEntry(k, amount, 1)]
    else if t[0].id == k then [t[0].(total := t[0].total + amount, count := t[0].count + 1)] + t[1..]
    else if MonthBefore(k, t[0].id) then [TrendEntry(k, amount, 1)] + t
    else [t[0]] + AddTo(t[1..], k, amount)
  }

  /** Adding a record counts it, and its amount, under its own month only. */
  lemma {:induction false} AddToCounts(t: seq<TrendEntry>, k: MonthKey, amount: real, x: MonthKey)
    ensures CountFor(AddTo(t, k, amount), x) == CountFor(t, x) + (if x == k then 1 else 0)
    ensures TotalFor(AddTo(t, k, amount), x) == TotalFor(t, x) + (if x == k then amount else 0.0)
  {
    if t != [] && t[0].id != k && !MonthBefore(k, t[0].id) {
      AddToCounts(t[1..], k, amount, x);
      var r := AddTo(t, k, amount);
      assert r[1..] == AddTo(t[1..], k, amount);
    } else if t != [] {
      var r := AddTo(t, k, amount);
      assert r[1..] == (if t[0].id == k then t[1..] else t);
    }
  }

  /** The `$group` and `$sort` stages over the matched records, in order. */
  function Group(w: seq<Expense>): (t: seq<TrendEntry>)
    ensures Ascending(t) && Populated(t)
  {
    if w == [] then [] else AddTo(Group(Init(w)), MonthOf(Last(w).date), Last(w).amount)
  }

  /**
   * The `monthlyTrend` of the analytics: the records dated no earlier than
   * `cutoff`, grouped; no entry is for a month before the cutoff's.
   */
  function MonthlyTrend(s: seq<Expense>, cutoff: Date): (t: seq<TrendEntry>)
    ensures Ascending(t) && Populated(t)
    ensures forall i :: 0 <= i < |t| ==> !MonthBefore(t[i].id, MonthOf(cutoff))
  {
    var w := Select(s, Within(cutoff));
    GroupInWindow(w, cutoff);
    Group(w)
  }

  /** Every month of the trend is a month of the records. */
  lemma {:induction false} EntryMonthListed(t: seq<TrendEntry>, i: int)
    requires 0 <= i < |t|
    ensures t[i].id in Months(t)
  {
    if i > 0 {
      EntryMonthListed(t[1..], i - 1);
    }
  }

  lemma GroupInWindow(w: seq<Expense>, cutoff: Date)
    requires forall e :: e in w ==> DateLe(cutoff, e.date)
    ensures forall i :: 0 <= i < |Group(w)| ==> !MonthBefore(Group(w)[i].id, MonthOf(cutoff))
  {
    var t := Group(w);
    GroupSpec(w);
    forall i | 0 <= i < |t|
      ensures !MonthBefore(t[i].id, MonthOf(cutoff))
    {
      EntryMonthListed(t, i);
      assert t[i].id in MonthsOf(w);
      var e :| e in w && MonthOf(e.date) == t[i].id;
      assert DateLe(cutoff, e.date);
    }
  }

  /**
   * Grouping loses nothing: each month's count and total are those of its
   * records, a month has an entry exactly when some record falls in it, and
   * the counts and totals add up to the number and the sum of all records.
   */
  lemma {:induction false} GroupSpec(w: seq<Expense>)
    ensures forall x :: CountFor(Group(w), x) == |Select(w, InMonth(x))|
    ensures forall x :: TotalFor(Group(w), x) == SumAmounts(Select(w, InMonth(x)))
    ensures Months(Group(w)) == MonthsOf(w)
    ensures SumCounts(Group(w)) == |w|
    ensures SumTotals(Group(w)) == SumAmounts(w)
  {
    if w != [] {
      var e := Last(w);
      var k := MonthOf(e.date);
      GroupSpec(Init(w));
      assert w == Init(w) + [e];
      assert MonthsOf(w) == MonthsOf(Init(w)) + {k};
      forall x
        ensures CountFor(Group(w), x) == |Select(w, InMonth(x))|
        ensures TotalFor(Group(w), x) == SumAmounts(Select(w, InMonth(x)))
      {
        AddToCounts(Group(Init(w)), k, e.amount, x);
        var before := Select(Init(w), InMonth(x));
        if x == k {
          assert Select(w, InMonth(x)) == before + [e];
          assert Init(before + [e]) == before;
        } else {
          assert Select(w, InMonth(x)) == before + [];
          assert before + [] == before;
        }
      }
    }
  }

  lemma {:induction false} AscendingIsStrict(t: seq<TrendEntry>)
    requires Ascending(t)
    ensures forall i, j :: 0 <= i < j < |t| ==> MonthBefore(t[i].id, t[j].id)
  {
    if |t| > 1 {
      AscendingIsStrict(t[1..]);
      forall j | 1 <= j < |t|
        ensures MonthBefore(t[0].id, t[j].id)
      {
        assert t[1..][j - 1] == t[j];
        if j > 1 {
          assert MonthBefore(t[1].id, t[j].id);
        }
      }
    }
  }

  /** In a strictly ascending result an entry is the only one of its month. */
  lemma {:induction false} EntryIsWholeMonth(t: seq<TrendEntry>, i: nat)
    requires Ascending(t) && i < |t|
    ensures CountFor(t, t[i].id) == t[i].count
    ensures TotalFor(t, t[i].id) == t[i].total
  {
    AscendingIsStrict(t);
    if i == 0 {
      MonthAbsent(t[1..], t[0].id);
    } else {
      EntryIsWholeMonth(t[1..], i - 1);
      assert t[1..][i - 1] == t[i];
    }
  }

  /** A month that sorts before every entry contributes nothing. */
  lemma {:induction false} MonthAbsent(t: seq<TrendEntry>, k: MonthKey)
    requires forall i :: 0 <= i < |t| ==> MonthBefore(k, t[i].id)
    ensures CountFor(t, k) == 0 && TotalFor(t, k) == 0.0
  {
    if t != [] {
      MonthAbsent(t[1..], k);
    }
  }

  /**
   * The monthly trend: in strictly ascending (year, month) order; one entry
   * per month in which some record dated no earlier than `cutoff` falls;
   * each entry counting and summing exactly that month's windowed records,
   * at least one; counts and totals adding up to the whole window.
   */
  lemma MonthlyTrendSpec(s: seq<Expense>, cutoff: Date)
    ensures var t := MonthlyTrend(s, cutoff);
            var w := Select(s, Within(cutoff));
            && (forall i, j :: 0 <= i < j < |t| ==> MonthBefore(t[i].id, t[j].id))
            && Months(t) == MonthsOf(w)
            && (forall i :: 0 <= i < |t| ==> 1 <= t[i].count == |Select(w, InMonth(t[i].id))|)
            && (forall i :: 0 <= i < |t| ==> t[i].total == SumAmounts(Select(w, InMonth(t[i].id))))
            && SumCounts(t) == |w|
            && SumTotals(t) == SumAmounts(w)
  {
    var w := Select(s, Within(cutoff));
    var t := Group(w);
    GroupSpec(w);
    AscendingIsStrict(t);
    forall i | 0 <= i < |t|
      ensures 1 <= t[i].count == |Select(w, InMonth(t[i].id))|
      ensures t[i].total == SumAmounts(Select(w, InMonth(t[i].id)))
    {
      EntryIsWholeMonth(t, i);
      assert CountFor(t, t[i].id) == |Select(w, InMonth(t[i].id))|;
      assert TotalFor(t, t[i].id) == SumAmounts(Select(w, InMonth(t[i].id)));
    }
  }

  // --------------------------------------------------------------- summary

  /** The JSON object `getAnalytics` answers with. */
  datatype Summary = Summary(
    totalExpenses: real,
    totalSavings: real,
    optimizableCount: nat,
    categoryBreakdown: map<Category, real>,
    savingsPercentage: real,
    monthlyTrend: seq<TrendEntry>,
    totalCount: nat)

  /** `getAnalytics` over the records `s`, with the trend window starting at `cutoff`. */
  function Summarize(s: seq<Expense>, cutoff: Date): (a: Summary)
    ensures a.totalCount == |s| && a.optimizableCount <= a.totalCount
    ensures BreakdownTotal(a.categoryBreakdown) == a.totalExpenses
    ensures SumCounts(a.monthlyTrend) <= a.totalCount
  {
    var totalExpenses := SumAmounts(s);
    var totalSavings := SumSavings(s);
    BreakdownSumsToTotal(s);
    GroupSpec(Select(s, Within(cutoff)));
    Summary(totalExpenses, totalSavings, OptimizableCount(s), CategoryBreakdown(s),
            SavingsPercentage(totalSavings, totalExpenses), MonthlyTrend(s, cutoff), |s|)
  }

  /**
   * The figures of one summary agree with each other: the breakdown adds up
   * to the total, the optimizable records and the windowed ones are among
   * all records, and nothing is negative.
   */
  lemma SummaryConsistent(s: seq<Expense>, cutoff: Date)
    requires forall e :: e in s ==> ValidExpense(e)
    ensures var a := Summarize(s, cutoff);
            && a.optimizableCount <= a.totalCount == |s|
            && BreakdownTotal(a.categoryBreakdown) == a.totalExpenses
            && a.totalExpenses >= 0.0 && a.totalSavings >= 0.0 && a.savingsPercentage >= 0.0
            && (a.totalExpenses == 0.0 ==> a.savingsPercentage == 0.0)
            && SumCounts(a.monthlyTrend) <= a.totalCount
            && SumTotals(a.monthlyTrend) <= a.totalExpenses
  {
    var a := Summarize(s, cutoff);
    BreakdownSumsToTotal(s);
    SumsNonNegative(s);
    GroupSpec(Select(s, Within(cutoff)));
    SelectSumBound(s, Within(cutoff));
    PercentageNonNegative(a.totalSavings, a.totalExpenses);
  }
}
