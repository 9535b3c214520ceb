/**
 * The request handlers of backend/controllers/expenseController.js over an
 * in-memory collection: a map from id to stored expense, and a counter
 * that hands out ids which are never reused.
 */
module ExpenseStore {
  import opened Wrappers
  import opened ExpenseModel
  import Sorting
  import Analytics

  /** What a handler answers: the result (200/201), 404, or 400 with the violations. */
  datatype Outcome<T> = Ok(value: T) | NotFound | Invalid(violations: set<Violation>)

  // ---------------------------------------------------------------- update

  /** A string in the request body is truthy when it is present and not empty. */
  predicate Truthy(s: Option<string>) {
    s.Some? && s.value != ""
  }

  /**
   * The assignments of `updateExpense`: `category`, `description` and
   * `date` fall back on the stored value when the body's value is falsy
   * (`x || stored`); `amount`, `optimizable` and `savings` only when it is
   * `undefined`, so `0` and `false` overwrite. Assigning `description`
   * runs the `trim` setter.
   */
  function Merge(stored: Fields, patch: ExpenseInput): (raw: RawDoc)
    ensures raw.description.Some? && IsTrimmed(raw.description.value)
  {
    RawDoc(
      Some(if Truthy(patch.category) then patch.category.value else Label(stored.category)),
      Some(Trim(if Truthy(patch.description) then patch.description.value else stored.description)),
      Some(patch.amount.GetOr(stored.amount)),
      patch.date.GetOr(stored.date),
      patch.optimizable.GetOr(stored.optimizable),
      patch.savings.GetOr(stored.savings))
  }

  /**
   * The fields of an accepted update: each field the body supplies (a
   * truthy string, or any defined value of the other fields) takes the
   * body's value, every other field keeps the stored one.
   */
  lemma MergeFieldByField(stored: Fields, patch: ExpenseInput, f: Fields)
    requires ValidFields(stored)
    requires Validate(Merge(stored, patch)) == Accepted(f)
    ensures f.category == (if Truthy(patch.category) then ParseCategory(patch.category.value).value else stored.category)
    ensures f.description == (if Truthy(patch.description) then Trim(patch.description.value) else stored.description)
    ensures f.amount == patch.amount.GetOr(stored.amount)
    ensures f.date == patch.date.GetOr(stored.date)
    ensures f.optimizable == patch.optimizable.GetOr(stored.optimizable)
    ensures f.savings == patch.savings.GetOr(stored.savings)
  {
    MergedCategory(stored, patch, f);
    MergedDescription(stored, patch, f);
  }

  lemma MergedCategory(stored: Fields, patch: ExpenseInput, f: Fields)
    requires Render(f) == Merge(stored, patch)
    ensures f.category == (if Truthy(patch.category) then ParseCategory(patch.category.value).value else stored.category)
  {
    var raw := Merge(stored, patch);
    assert Label(f.category) == raw.category.value;
    if Truthy(patch.category) {
      ParseLabelAt(f.category);
    } else {
      LabelInjective(f.category, stored.category);
    }
  }

  lemma MergedDescription(stored: Fields, patch: ExpenseInput, f: Fields)
    requires IsTrimmed(stored.description)
    requires Render(f) == Merge(stored, patch)
    ensures f.description == (if Truthy(patch.description) then Trim(patch.description.value) else stored.description)
  {
    TrimIdempotent(stored.description);
  }

  /** An update that supplies nothing (keys left out, or empty strings) accepts the record as it is. */
  lemma MergeNothing(stored: Fields, patch: ExpenseInput)
    requires ValidFields(stored)
    requires !Truthy(patch.category) && !Truthy(patch.description)
    requires patch.amount.None? && patch.date.None? && patch.optimizable.None? && patch.savings.None?
    ensures Validate(Merge(stored, patch)) == Accepted(stored)
  {
    TrimIdempotent(stored.description);
    ValidateAcceptsValid(stored);
  }

  /** Sending the same update twice changes nothing the second time. */
  lemma MergeIdempotent(stored: Fields, patch: ExpenseInput, f: Fields)
    requires ValidFields(stored)
    requires Validate(Merge(stored, patch)) == Accepted(f)
    ensures Validate(Merge(f, patch)) == Accepted(f)
  {
    var raw := Merge(stored, patch);
    assert Render(f) == raw;
    TrimIdempotent(f.description);
    if Truthy(patch.description) {
      TrimIdempotent(patch.description.value);
    }
    var again := Merge(f, patch);
    assert again.description == raw.description;
    assert again == raw;
    ValidateAcceptsValid(f);
  }

  // ------------------------------------------------------------ the store

  /** `Expense.find()`: the stored records in id order (the order they were created in). */
  function Scan(m: map<Id, Expense>, n: nat): (r: seq<Expense>)
    requires forall id :: id in m ==> m[id].id == id
    ensures forall i :: 0 <= i < |r| ==> r[i].id < n && r[i].id in m && m[r[i].id] == r[i]
    ensures forall id :: id in m && id < n ==> m[id] in r
    ensures forall i, j :: 0 <= i < j < |r| ==> r[i].id < r[j].id
  {
    if n == 0 then [] else Scan(m, n - 1) + (if n - 1 in m then [m[n - 1]] else [])
  }

  /** The scan has one entry per stored id below `n`. */
  lemma {:induction false} ScanCount(m: map<Id, Expense>, n: nat)
    requires forall id :: id in m ==> m[id].id == id
    ensures |Scan(m, n)| == |IdsBelow(m, n)|
  {
    if n > 0 {
      ScanCount(m, n - 1);
      IdsBelowStep(m, n);
    }
  }

  /** The stored ids below `n`. */
  function IdsBelow(m: map<Id, Expense>, n: nat): set<Id> {
    set id | id in m && id < n
  }

  lemma IdsBelowStep(m: map<Id, Expense>, n: nat)
    requires n > 0
    ensures |IdsBelow(m, n)| == |IdsBelow(m, n - 1)| + (if n - 1 in m then 1 else 0)
  {
    var below := IdsBelow(m, n - 1);
    assert n - 1 !in below;
    if n - 1 in m {
      assert IdsBelow(m, n) == below + {n - 1};
    } else {
      assert IdsBelow(m, n) == below;
    }
  }

  /** The `sort({ date: -1 })` order: `a` may come before `b` when it is no older. */
  predicate NewerOrSame(a: Expense, b: Expense) {
    DateLe(b.date, a.date)
  }

  lemma NewerOrSameIsTotalPreorder()
    ensures Sorting.TotalPreorder(NewerOrSame)
  {
    forall a: Expense, b: Expense, c: Expense
      ensures NewerOrSame(a, b) || NewerOrSame(b, a)
      ensures NewerOrSame(a, b) && NewerOrSame(b, c) ==> NewerOrSame(a, c)
    {
      DateLeIsTotalOrder(c.date, b.date, a.date);
    }
  }

  class Store {
    var records: map<Id, Expense>
    var nextId: Id

    /** Every record is valid, is filed under its own id, and that id has been handed out. */
    ghost predicate Valid()
      reads this
    {
      forall id :: id in records ==> id < nextId && records[id].id == id && ValidExpense(records[id])
    }

    constructor ()
      ensures Valid() && records == map[] && nextId == 0
    {
      records := map[];
      nextId := 0;
    }

    /**
     * `createExpense`: a body that passes validation is stored under a
     * fresh id with both timestamps set to `now`; any other body is
     * rejected with its violations and nothing is stored.
     */
    method Create(input: ExpenseInput, now: Date) returns (r: Outcome<Expense>)
      requires Valid()
      modifies this
      ensures Valid()
      ensures match Validate(WithDefaults(input, now))
              case Rejected(v) =>
                r == Invalid(v) && records == old(records) && nextId == old(nextId)
              case Accepted(f) =>
                && old(nextId) !in old(records)
                && r == Ok(Stored(old(nextId), f, now, now))
                && records == old(records)[old(nextId) := r.value]
                && nextId == old(nextId) + 1
    {
      match Validate(WithDefaults(input, now))
      case Rejected(v) =>
        r := Invalid(v);
      case Accepted(f) =>
        var e := Stored(nextId, f, now, now);
        records := records[nextId := e];
        nextId := nextId + 1;
        r := Ok(e);
    }

    /** `getExpenseById`: the record stored under `id`, or not found. */
    method Get(id: Id) returns (r: Outcome<Expense>)
      ensures id in records ==> r == Ok(records[id])
      ensures id !in records ==> r == NotFound
    {
      if id in records {
        r := Ok(records[id]);
      } else {
        r := NotFound;
      }
    }

    /**
     * `updateExpense`: not found when `id` is absent; otherwise the merged
     * document is validated, and either replaces the record under `id`
     * alone (keeping `createdAt`, refreshing `updatedAt` when some field
     * changed) or is rejected, leaving the store as it was.
     */
    method Update(id: Id, patch: ExpenseInput, now: Date) returns (r: Outcome<Expense>)
      requires Valid()
      modifies this
      ensures Valid() && nextId == old(nextId)
      ensures id !in old(records) ==> r == NotFound && records == old(records)
      ensures id in old(records) ==>
                var before := old(records)[id];
                match Validate(Merge(FieldsOf(before), patch))
                case Rejected(v) =>
                  r == Invalid(v) && records == old(records)
                case Accepted(f) =>
                  && r == Ok(Stored(id, f, before.createdAt,
                                    if f == FieldsOf(before) then before.updatedAt else now))
                  && records == old(records)[id := r.value]
    {
      if id !in records {
        return NotFound;
      }
      var before := records[id];
      match Validate(Merge(FieldsOf(before), patch))
      case Rejected(v) =>
        r := Invalid(v);
      case Accepted(f) =>
        var stamp := if f == FieldsOf(before) then before.updatedAt else now;
        var e := Stored(id, f, before.createdAt, stamp);
        records := records[id := e];
        r := Ok(e);
    }

    /** `deleteExpense`: removes exactly the record under `id`, or reports not found. */
    method Delete(id: Id) returns (r: Outcome<()>)
      requires Valid()
      modifies this
      ensures Valid() && nextId == old(nextId)
      ensures id !in old(records) ==> r == NotFound && records == old(records)
      ensures id in old(records) ==> r == Ok(()) && records == old(records) - {id}
    {
      if id !in records {
        return NotFound;
      }
      records := records - {id};
      r := Ok(());
    }

    /**
     * `getExpenses`: every stored record exactly once, newest first
     * (records with the same date in no promised order).
     */
    method List() returns (s: seq<Expense>)
      requires Valid()
      ensures forall i :: 0 <= i < |s| ==> s[i].id in records && records[s[i].id] == s[i]
      ensures forall id :: id in records ==> records[id] in s
      ensures forall i, j :: 0 <= i < j < |s| ==> s[i].id != s[j].id
      ensures forall i, j :: 0 <= i < j < |s| ==> DateLe(s[j].date, s[i].date)
    {
      var scanned := Scan(records, nextId);
      s := Sorting.Sort(scanned, NewerOrSame);
      NewerOrSameIsTotalPreorder();
      Sorting.SortSorted(scanned, NewerOrSame);
      assert Sorting.Distinct(scanned);
      Sorting.SortDistinct(scanned, NewerOrSame);
      forall i | 0 <= i < |s|
        ensures s[i] in scanned
      {
        assert s[i] in multiset(s);
      }
      forall id | id in records
        ensures records[id] in s
      {
        assert records[id] in multiset(scanned);
      }
    }

    /**
     * `getAnalytics` over the current records: one summary of all of them,
     * counting every stored record once.
     */
    method Summary(cutoff: Date) returns (a: Analytics.Summary)
      requires Valid()
      ensures a == Analytics.Summarize(Scan(records, nextId), cutoff)
      ensures a.totalCount == |records|
      ensures a.optimizableCount <= a.totalCount
      ensures Analytics.BreakdownTotal(a.categoryBreakdown) == a.totalExpenses
    {
      var scanned := Scan(records, nextId);
      a := Analytics.Summarize(scanned, cutoff);
      ScanCount(records, nextId);
      assert IdsBelow(records, nextId) == records.Keys;
    }
  }

  /** Deleting twice: the second delete of the same id is not found. */
  method DeleteTwice(store: Store, id: Id) returns (first: Outcome<()>, second: Outcome<()>)
    requires store.Valid()
    modifies store
    ensures first == (if id in old(store.records) then Ok(()) else NotFound)
    ensures second == NotFound
    ensures store.records == old(store.records) - {id}
  {
    first := store.Delete(id);
    second := store.Delete(id);
  }

  /** A created record reads back unchanged under the id it was given. */
  method CreateThenGet(store: Store, input: ExpenseInput, now: Date)
    returns (created: Outcome<Expense>, fetched: Outcome<Expense>)
    requires store.Valid()
    modifies store
    ensures created.Ok? ==> fetched == created && created.value.id == old(store.nextId)
    ensures created.Invalid? ==> store.records == old(store.records)
  {
    created := store.Create(input, now);
    if created.Ok? {
      fetched := store.Get(created.value.id);
    } else {
      fetched := NotFound;
    }
  }
}
