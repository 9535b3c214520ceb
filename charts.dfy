/**
 * The chart data prepared at the top of the `Analytics` component
 * (frontend/src/components/Analytics.jsx): the category pie, the monthly
 * series and the optimizable/fixed split, all computed from the analytics
 * object the back end returns.
 */
module Charts {
  import opened Wrappers
  import opened ExpenseModel
  import Analytics
  import Sorting

  // -------------------------------------------------------- categoryData

  /** A `{ name, value }` slice of the category chart. */
  datatype Slice = Slice(name: string, value: real)

  /**
   * `Object.entries(breakdown).map(([name, value]) => ({ name, value }))`,
   * keys in the order `cs`: each slice names a key of `m` listed in `cs`
   * and carries its value, and every such key has its slice.
   */
  function Entries(m: map<Category, real>, cs: seq<Category>): (r: seq<Slice>)
    ensures forall x :: x in r ==> SliceOfKey(m, cs, x)
    ensures forall c :: c in m && c in cs ==> Slice(Label(c), m[c]) in r
  {
    if cs == [] then []
    else
      var tail := Entries(m, cs[1..]);
      EntriesStep(m, cs, tail);
      (if cs[0] in m then [Slice(Label(cs[0]), m[cs[0]])] else []) + tail
  }

  /** One more listed category: the slices of the rest stay slices of listed keys, and the first key gets its own. */
  lemma EntriesStep(m: map<Category, real>, cs: seq<Category>, tail: seq<Slice>)
    requires cs != []
    requires forall x :: x in tail ==> SliceOfKey(m, cs[1..], x)
    requires forall c :: c in m && c in cs[1..] ==> Slice(Label(c), m[c]) in tail
    ensures var r := (if cs[0] in m then [Slice(Label(cs[0]), m[cs[0]])] else []) + tail;
            && (forall x :: x in r ==> SliceOfKey(m, cs, x))
            && (forall c :: c in m && c in cs ==> Slice(Label(c), m[c]) in r)
  {
    ParseLabelAt(cs[0]);
    forall x | x in tail
      ensures SliceOfKey(m, cs, x)
    {
      assert SliceOfKey(m, cs[1..], x);
      assert ParseCategory(x.name).value in cs[1..];
    }
    forall c | c in m && c in cs && c != cs[0]
      ensures c in cs[1..]
    {
    }
  }

  /** The comparator `(a, b) => b.value - a.value`: `a` may come first when its value is no smaller. */
  predicate ByValueDesc(a: Slice, b: Slice) {
    a.value >= b.value
  }

  lemma ByValueDescIsTotalPreorder()
    ensures Sorting.TotalPreorder(ByValueDesc)
  {
  }

  function SumSlices(s: seq<Slice>): real {
    if s == [] then 0.0 else s[0].value + SumSlices(s[1..])
  }

  /** `x` is the slice of a key of `m` listed in `cs`: its name parses to that key and it carries the key's value. */
  predicate SliceOfKey(m: map<Category, real>, cs: seq<Category>, x: Slice) {
    var k := ParseCategory(x.name);
    k.Some? && k.value in m && k.value in cs && x.value == m[k.value]
  }

  /** No two slices share a name. */
  predicate NamesDistinct(r: seq<Slice>) {
    forall i, j :: 0 <= i < j < |r| ==> r[i].name != r[j].name
  }

  /** With no category listed twice, no two slices share a name. */
  lemma {:induction false} EntriesDistinctNames(m: map<Category, real>, cs: seq<Category>)
    requires Sorting.Distinct(cs)
    ensures NamesDistinct(Entries(m, cs))
  {
    if cs != [] {
      var c := cs[0];
      var tail := Entries(m, cs[1..]);
      EntriesDistinctNames(m, cs[1..]);
      OthersNamedOtherwise(m, cs, tail);
      var head := if c in m then [Slice(Label(c), m[c])] else [];
      assert Entries(m, cs) == head + tail;
      ConsNamesDistinct(head, tail, Label(c));
    }
  }

  /** The slices of the later categories never carry the first category's label. */
  lemma OthersNamedOtherwise(m: map<Category, real>, cs: seq<Category>, tail: seq<Slice>)
    requires cs != [] && Sorting.Distinct(cs)
    requires forall x :: x in tail ==> SliceOfKey(m, cs[1..], x)
    ensures forall x :: x in tail ==> x.name != Label(cs[0])
  {
    ParseLabelAt(cs[0]);
    assert cs[0] !in cs[1..];
    forall x | x in tail
      ensures x.name != Label(cs[0])
    {
      assert SliceOfKey(m, cs[1..], x);
    }
  }

  lemma ConsNamesDistinct(head: seq<Slice>, tail: seq<Slice>, name: string)
    requires |head| <= 1 && (head != [] ==> head[0].name == name)
    requires NamesDistinct(tail)
    requires forall x :: x in tail ==> x.name != name
    ensures NamesDistinct(head + tail)
  {
    var r := head + tail;
    forall i, j | 0 <= i < j < |r|
      ensures r[i].name != r[j].name
    {
      assert r[j] == tail[j - |head|];
      if i >= |head| {
        assert r[i] == tail[i - |head|];
      } else {
        assert r[j] in tail;
      }
    }
  }

  /** The slices add up to the breakdown's total over `cs`. */
  lemma {:induction false} EntriesSum(m: map<Category, real>, cs: seq<Category>)
    ensures SumSlices(Entries(m, cs)) == Analytics.SumOver(m, cs)
  {
    if cs != [] {
      var head := if cs[0] in m then [Slice(Label(cs[0]), m[cs[0]])] else [];
      EntriesSum(m, cs[1..]);
      SumSlicesAppend(head, Entries(m, cs[1..]));
    }
  }

  lemma {:induction false} SumSlicesAppend(a: seq<Slice>, b: seq<Slice>)
    ensures SumSlices(a + b) == SumSlices(a) + SumSlices(b)
  {
    if a != [] {
      assert (a + b)[1..] == a[1..] + b;
      SumSlicesAppend(a[1..], b);
    } else {
      assert a + b == b;
    }
  }

  lemma {:induction false} InsertKeepsSum(x: Slice, s: seq<Slice>)
    ensures SumSlices(Sorting.Insert(x, s, ByValueDesc)) == x.value + SumSlices(s)
  {
    if s != [] && !ByValueDesc(x, s[0]) {
      InsertKeepsSum(x, s[1..]);
    }
  }

  /** Reordering the slices does not change what they add up to. */
  lemma {:induction false} SortKeepsSum(s: seq<Slice>)
    ensures SumSlices(Sorting.Sort(s, ByValueDesc)) == SumSlices(s)
  {
    if s != [] {
      SortKeepsSum(s[1..]);
      InsertKeepsSum(s[0], Sorting.Sort(s[1..], ByValueDesc));
    }
  }

  /**
   * `categoryData`: one slice per key of the breakdown, named by its label
   * and carrying its value, largest value first; no slices when the
   * breakdown is missing.
   */
  function CategoryData(breakdown: Option<map<Category, real>>): (r: seq<Slice>)
    ensures breakdown.None? ==> r == []
    ensures Sorting.SortedBy(r, ByValueDesc)
    ensures var m := breakdown.GetOr(map[]);
            && (forall i :: 0 <= i < |r| ==>
                  && ParseCategory(r[i].name).Some?
                  && ParseCategory(r[i].name).value in m
                  && r[i].value == m[ParseCategory(r[i].name).value])
            && (forall c :: c in m ==> Slice(Label(c), m[c]) in r)
            && (forall i, j :: 0 <= i < j < |r| ==> r[i].name != r[j].name)
  {
    var m := breakdown.GetOr(map[]);
    var entries := Entries(m, AllCategories);
    var r := Sorting.Sort(entries, ByValueDesc);
    CategoryDataSpec(m, entries, r);
    r
  }

  lemma CategoryDataSpec(m: map<Category, real>, entries: seq<Slice>, r: seq<Slice>)
    requires entries == Entries(m, AllCategories)
    requires r == Sorting.Sort(entries, ByValueDesc)
    ensures Sorting.SortedBy(r, ByValueDesc)
    ensures forall i :: 0 <= i < |r| ==>
              && ParseCategory(r[i].name).Some?
              && ParseCategory(r[i].name).value in m
              && r[i].value == m[ParseCategory(r[i].name).value]
    ensures forall c :: c in m ==> Slice(Label(c), m[c]) in r
    ensures forall i, j :: 0 <= i < j < |r| ==> r[i].name != r[j].name
  {
    ByValueDescIsTotalPreorder();
    Sorting.SortSorted(entries, ByValueDesc);
    SortedNameKeys(m, entries, r);
    SortedCover(m, entries, r);
    SortedDistinctNames(m, entries, r);
  }

  lemma SortedNameKeys(m: map<Category, real>, entries: seq<Slice>, r: seq<Slice>)
    requires entries == Entries(m, AllCategories)
    requires multiset(r) == multiset(entries)
    ensures forall i :: 0 <= i < |r| ==>
              && ParseCategory(r[i].name).Some?
              && ParseCategory(r[i].name).value in m
              && r[i].value == m[ParseCategory(r[i].name).value]
  {
    forall i | 0 <= i < |r|
      ensures ParseCategory(r[i].name).Some?
      ensures ParseCategory(r[i].name).value in m
      ensures r[i].value == m[ParseCategory(r[i].name).value]
    {
      assert r[i] in multiset(entries);
      assert SliceOfKey(m, AllCategories, r[i]);
    }
  }

  lemma SortedCover(m: map<Category, real>, entries: seq<Slice>, r: seq<Slice>)
    requires entries == Entries(m, AllCategories)
    requires multiset(r) == multiset(entries)
    ensures forall c :: c in m ==> Slice(Label(c), m[c]) in r
  {
    forall c | c in m
      ensures Slice(Label(c), m[c]) in r
    {
      AllCategoriesListed(c);
      assert Slice(Label(c), m[c]) in multiset(entries);
    }
  }

  lemma SortedDistinctNames(m: map<Category, real>, entries: seq<Slice>, r: seq<Slice>)
    requires entries == Entries(m, AllCategories)
    requires r == Sorting.Sort(entries, ByValueDesc)
    ensures NamesDistinct(r)
  {
    AllCategoriesListed(Other);
    EntriesDistinctNames(m, AllCategories);
    assert Sorting.Distinct(entries);
    Sorting.SortDistinct(entries, ByValueDesc);
    SortedNameKeys(m, entries, r);
    forall i, j | 0 <= i < j < |r|
      ensures r[i].name != r[j].name
    {
      if r[i].name == r[j].name {
        assert false;
      }
    }
  }

  // --------------------------------------------------------- monthlyData

  /** A point of the monthly chart; `name` is the month the label is drawn from. */
  datatype Point = Point(name: Analytics.MonthKey, expenses: real, count: nat)

  /** One point per trend entry, in the trend's order, carrying its month, total and count. */
  function Points(t: seq<Analytics.TrendEntry>): (r: seq<Point>)
    ensures |r| == |t|
    ensures forall i :: 0 <= i < |r| ==> r[i] == Point(t[i].id, t[i].total, t[i].count)
  {
    if t == [] then [] else [Point(t[0].id, t[0].total, t[0].count)] + Points(t[1..])
  }

  /** `monthlyTrend?.map(month => ({ name, expenses: month.total, count: month.count })) || []`. */
  function MonthlyData(trend: Option<seq<Analytics.TrendEntry>>): (r: seq<Point>)
    ensures trend.None? ==> r == []
    ensures trend.Some? ==> |r| == |trend.value|
    ensures trend.Some? ==> forall i :: 0 <= i < |r| ==>
              r[i] == Point(trend.value[i].id, trend.value[i].total, trend.value[i].count)
  {
    match trend
    case None => []
    case Some(t) => Points(t)
  }

  /** Each point's month comes strictly before the next one's. */
  predicate InMonthOrder(points: seq<Point>) {
    forall i, j :: 0 <= i < j < |points| ==> Analytics.MonthBefore(points[i].name, points[j].name)
  }

  function SumExpenses(p: seq<Point>): real {
    if p == [] then 0.0 else p[0].expenses + SumExpenses(p[1..])
  }

  // ----------------------------------------------------- optimizableData

  /** A slice of the optimizable/fixed chart. */
  datatype Share = Share(name: string, value: int, color: string)

  /** `optimizableData`: the optimizable records and the rest, which together make up all records. */
  function OptimizableData(optimizableCount: int, totalCount: int): (r: seq<Share>)
    ensures |r| == 2
    ensures r[0].name == "Optimizable" && r[1].name == "Fixed"
    ensures r[0].value == optimizableCount
    ensures r[0].value + r[1].value == totalCount
  {
    [Share("Optimizable", optimizableCount, "#4CAF50"),
     Share("Fixed", totalCount - optimizableCount, "#FF9800")]
  }

  // ----------------------------------------------------- from the summary

  /** The category slices add up to the breakdown's total. */
  lemma CategorySlicesSum(m: map<Category, real>)
    ensures SumSlices(CategoryData(Some(m))) == Analytics.BreakdownTotal(m)
  {
    EntriesSum(m, AllCategories);
    SortKeepsSum(Entries(m, AllCategories));
  }

  /** Points drawn from a trend in ascending months are in strictly ascending months. */
  lemma PointsAscending(t: seq<Analytics.TrendEntry>)
    requires Analytics.Ascending(t)
    ensures InMonthOrder(Points(t))
  {
    Analytics.AscendingIsStrict(t);
  }

  /**
   * The monthly points of the analytics run in strictly ascending months
   * and add up to the amount spent inside the window.
   */
  lemma MonthlyPointsOfTrend(s: seq<Expense>, cutoff: Date)
    ensures var points := MonthlyData(Some(Analytics.MonthlyTrend(s, cutoff)));
            && InMonthOrder(points)
            && SumExpenses(points) == Analytics.SumAmounts(Analytics.Select(s, Analytics.Within(cutoff)))
  {
    var t := Analytics.MonthlyTrend(s, cutoff);
    PointsAscending(t);
    PointsFollowTrend(t);
    Analytics.GroupSpec(Analytics.Select(s, Analytics.Within(cutoff)));
  }

  /** The category slices drawn from a summary add up to its total expenses. */
  lemma CategoryChartOfSummary(s: seq<Expense>, cutoff: Date, a: Analytics.Summary)
    requires forall e :: e in s ==> ValidExpense(e)
    requires a == Analytics.Summarize(s, cutoff)
    ensures SumSlices(CategoryData(Some(a.categoryBreakdown))) == a.totalExpenses
  {
    Analytics.SummaryConsistent(s, cutoff);
    CategorySlicesSum(a.categoryBreakdown);
  }

  /**
   * The monthly points drawn from a summary of valid records run in
   * strictly ascending months and add up to no more than its total expenses.
   */
  lemma MonthlyChartOfSummary(s: seq<Expense>, cutoff: Date, a: Analytics.Summary)
    requires forall e :: e in s ==> ValidExpense(e)
    requires a == Analytics.Summarize(s, cutoff)
    ensures InMonthOrder(MonthlyData(Some(a.monthlyTrend)))
    ensures SumExpenses(MonthlyData(Some(a.monthlyTrend))) <= a.totalExpenses
  {
    PointsAscending(a.monthlyTrend);
    Analytics.SummaryConsistent(s, cutoff);
    PointsFollowTrend(a.monthlyTrend);
  }

  /** Neither share of the optimizable chart drawn from a summary is negative, and together they count every record. */
  lemma OptimizableChartOfSummary(s: seq<Expense>, cutoff: Date, a: Analytics.Summary)
    requires forall e :: e in s ==> ValidExpense(e)
    requires a == Analytics.Summarize(s, cutoff)
    ensures forall sh :: sh in OptimizableData(a.optimizableCount, a.totalCount) ==> sh.value >= 0
    ensures OptimizableData(a.optimizableCount, a.totalCount)[0].value
            + OptimizableData(a.optimizableCount, a.totalCount)[1].value == |s|
  {
    Analytics.SummaryConsistent(s, cutoff);
  }

  lemma {:induction false} PointsFollowTrend(t: seq<Analytics.TrendEntry>)
    ensures SumExpenses(MonthlyData(Some(t))) == Analytics.SumTotals(t)
  {
    if t != [] {
      PointsFollowTrend(t[1..]);
      assert Points(t)[1..] == Points(t[1..]);
    }
  }
}
