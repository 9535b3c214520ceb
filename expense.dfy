/**
 * The expense document (backend/models/Expense.js): its fields, the eight
 * category labels, the `trim` setter on `description`, the defaults for
 * `date`, `optimizable` and `savings`, and the schema's validators.
 */
module ExpenseModel {
  import opened Wrappers

  // ---------------------------------------------------------------- dates

  type MonthNumber = m: int | 1 <= m <= 12 witness 1

  /**
   * A calendar instant (UTC): its year, its month, and how far into that
   * month it lies. `$year` and `$month` of the aggregation are its first
   * two components.
   */
  datatype Date = Date(year: int, month: MonthNumber, offset: nat)

  /** `a` is no later than `b`: years, then months, then the offset. */
  predicate DateLe(a: Date, b: Date) {
    a.year < b.year
    || (a.year == b.year && a.month < b.month)
    || (a.year == b.year && a.month == b.month && a.offset <= b.offset)
  }

  lemma DateLeIsTotalOrder(a: Date, b: Date, c: Date)
    ensures DateLe(a, a)
    ensures DateLe(a, b) || DateLe(b, a)
    ensures DateLe(a, b) && DateLe(b, a) ==> a == b
    ensures DateLe(a, b) && DateLe(b, c) ==> DateLe(a, c)
  {
  }

  // ------------------------------------------------------------ categories

  /** The closed `enum` of the `category` path. */
  datatype Category =
    | CloudServices
    | SoftwareLicenses
    | Marketing
    | Operations
    | HumanResources
    | OfficeSupplies
    | Travel
    | Other

  /** The enum's labels in declaration order. */
  const AllCategories: seq<Category> :=
    [CloudServices, SoftwareLicenses, Marketing, Operations,
     HumanResources, OfficeSupplies, Travel, Other]

  /** The list holds every category exactly once. */
  lemma AllCategoriesListed(c: Category)
    ensures c in AllCategories
    ensures forall i, j :: 0 <= i < j < |AllCategories| ==> AllCategories[i] != AllCategories[j]
  {
  }

  /** The label stored in the document for a category. */
  function Label(c: Category): string {
    match c
    case CloudServices => "Cloud Services"
    case SoftwareLicenses => "Software Licenses"
    case Marketing => "Marketing"
    case Operations => "Operations"
    case HumanResources => "Human Resources"
    case OfficeSupplies => "Office Supplies"
    case Travel => "Travel"
    case Other => "Other"
  }

  /** The enum validator: the category whose label is `s`, if any. */
  function ParseCategory(s: string): (r: Option<Category>)
    ensures r.Some? ==> Label(r.value) == s
  {
    if s == "Cloud Services" then Some(CloudServices)
    else if s == "Software Licenses" then Some(SoftwareLicenses)
    else if s == "Marketing" then Some(Marketing)
    else if s == "Operations" then Some(Operations)
    else if s == "Human Resources" then Some(HumanResources)
    else if s == "Office Supplies" then Some(OfficeSupplies)
    else if s == "Travel" then Some(Travel)
    else if s == "Other" then Some(Other)
    else None
  }

  /** Exactly the eight labels are accepted, each naming its own category. */
  lemma ParseLabel(c: Category, s: string)
    ensures ParseCategory(Label(c)) == Some(c)
    ensures ParseCategory(s).Some? <==> exists d :: Label(d) == s
  {
    if ParseCategory(s).None? {
      forall d ensures Label(d) != s {
        ParseLabelAt(d);
      }
    }
  }

  lemma ParseLabelAt(c: Category)
    ensures ParseCategory(Label(c)) == Some(c)
  {
    match c
    case CloudServices =>
    case SoftwareLicenses =>
    case Marketing =>
    case Operations =>
    case HumanResources =>
    case OfficeSupplies =>
    case Travel =>
    case Other =>
  }

  /** Different categories have different labels. */
  lemma LabelInjective(a: Category, b: Category)
    requires Label(a) == Label(b)
    ensures a == b
  {
    ParseLabelAt(a);
    ParseLabelAt(b);
  }

  // ------------------------------------------------------------------ trim

  /** The characters `String.prototype.trim` removes: white space and line terminators. */
  predicate IsSpace(ch: char) {
    || ch == '\t' || ch == '\n' || ch == '\U{B}' || ch == '\U{C}' || ch == '\r'
    || ch == ' ' || ch == '\U{A0}' || ch == '\U{1680}'
    || ('\U{2000}' <= ch <= '\U{200A}')
    || ch == '\U{2028}' || ch == '\U{2029}' || ch == '\U{202F}' || ch == '\U{205F}'
    || ch == '\U{3000}' || ch == '\U{FEFF}'
  }

  /** Neither end of `s` is white space. */
  predicate IsTrimmed(s: string) {
    s == [] || (!IsSpace(s[0]) && !IsSpace(s[|s| - 1]))
  }

  /** Drops the leading white space. */
  function TrimStart(s: string): string {
    if s == [] || !IsSpace(s[0]) then s else TrimStart(s[1..])
  }

  /** Drops the trailing white space. */
  function TrimEnd(s: string): string {
    if s == [] || !IsSpace(s[|s| - 1]) then s else TrimEnd(s[..|s| - 1])
  }

  /** What TrimStart leaves is the suffix after the leading white space. */
  lemma {:induction false} TrimStartSpec(s: string)
    ensures var r := TrimStart(s);
            && |r| <= |s| && r == s[|s| - |r|..]
            && (forall k :: 0 <= k < |s| - |r| ==> IsSpace(s[k]))
            && (r == [] || !IsSpace(r[0]))
  {
    if s != [] && IsSpace(s[0]) {
      var t := s[1..];
      TrimStartSpec(t);
      var r := TrimStart(t);
      assert TrimStart(s) == r;
      assert s[|s| - |r|..] == t[|t| - |r|..];
      forall k | 0 <= k < |s| - |r|
        ensures IsSpace(s[k])
      {
        if k > 0 {
          assert s[k] == t[k - 1];
        }
      }
    }
  }

  /** What TrimEnd leaves is the prefix before the trailing white space. */
  lemma {:induction false} TrimEndSpec(s: string)
    ensures var r := TrimEnd(s);
            && |r| <= |s| && r == s[..|r|]
            && (forall k :: |r| <= k < |s| ==> IsSpace(s[k]))
            && (r == [] || !IsSpace(r[|r| - 1]))
  {
    if s != [] && IsSpace(s[|s| - 1]) {
      var t := s[..|s| - 1];
      TrimEndSpec(t);
      var r := TrimEnd(t);
      assert TrimEnd(s) == r;
      assert s[..|r|] == t[..|r|];
      forall k | |r| <= k < |s|
        ensures IsSpace(s[k])
      {
        if k < |s| - 1 {
          assert s[k] == t[k];
        }
      }
    }
  }

  /** The schema's `trim: true` setter: white space gone from both ends. */
  function Trim(s: string): (r: string)
    ensures IsTrimmed(r)
  {
    TrimStartSpec(s);
    TrimEndSpec(TrimStart(s));
    TrimEnd(TrimStart(s))
  }

  /**
   * Trim cuts `s` into leading white space, the result, and trailing white
   * space; it is empty exactly when `s` is nothing but white space.
   */
  lemma TrimSpec(s: string)
    ensures exists i, j :: 0 <= i <= j <= |s| && Trim(s) == s[i..j]
                           && (forall k :: 0 <= k < i ==> IsSpace(s[k]))
                           && (forall k :: j <= k < |s| ==> IsSpace(s[k]))
    ensures Trim(s) == [] <==> forall k :: 0 <= k < |s| ==> IsSpace(s[k])
  {
    var t := TrimStart(s);
    TrimStartSpec(s);
    TrimEndSpec(t);
    var r := TrimEnd(t);
    var i := |s| - |t|;
    var j := i + |r|;
    assert r == s[i..j];
    forall k | j <= k < |s|
      ensures IsSpace(s[k])
    {
      assert s[k] == t[k - i];
    }
    if r == [] {
      assert t == [];
    } else {
      assert !IsSpace(s[i]);
    }
  }

  /** Trimming twice is trimming once: a trimmed string is left alone. */
  lemma TrimIdempotent(s: string)
    ensures IsTrimmed(s) ==> Trim(s) == s
    ensures Trim(Trim(s)) == Trim(s)
  {
    TrimmedUnchanged(Trim(s));
    if IsTrimmed(s) {
      TrimmedUnchanged(s);
    }
  }

  lemma TrimmedUnchanged(s: string)
    requires IsTrimmed(s)
    ensures Trim(s) == s
  {
    assert TrimStart(s) == s;
    assert TrimEnd(s) == s;
  }

  // -------------------------------------------------------------- documents

  /** What a request body may carry; `None` is a key that was left out. */
  datatype ExpenseInput = ExpenseInput(
    category: Option<string>,
    description: Option<string>,
    amount: Option<real>,
    date: Option<Date>,
    optimizable: Option<bool>,
    savings: Option<real>)

  /**
   * A document after casting, setters and defaults, before validation.
   * `date`, `optimizable` and `savings` always hold a value once the
   * defaults have been applied.
   */
  datatype RawDoc = RawDoc(
    category: Option<string>,
    description: Option<string>,
    amount: Option<real>,
    date: Date,
    optimizable: bool,
    savings: real)

  /** The user-supplied fields of an accepted document. */
  datatype Fields = Fields(
    category: Category,
    description: string,
    amount: real,
    date: Date,
    optimizable: bool,
    savings: real)

  type Id = nat

  /** A stored expense: its fields plus the id and the two timestamps. */
  datatype Expense = Expense(
    id: Id,
    category: Category,
    description: string,
    amount: real,
    date: Date,
    optimizable: bool,
    savings: real,
    createdAt: Date,
    updatedAt: Date)

  /** Every constraint of the schema holds. */
  predicate ValidFields(f: Fields) {
    && f.description != []
    && IsTrimmed(f.description)
    && f.amount >= 0.0
    && f.savings >= 0.0
  }

  function FieldsOf(e: Expense): Fields {
    Fields(e.category, e.description, e.amount, e.date, e.optimizable, e.savings)
  }

  predicate ValidExpense(e: Expense) {
    ValidFields(FieldsOf(e))
  }

  /** Stamps accepted fields with an id and timestamps. */
  function Stored(id: Id, f: Fields, createdAt: Date, updatedAt: Date): (e: Expense)
    ensures FieldsOf(e) == f
  {
    Expense(id, f.category, f.description, f.amount, f.date, f.optimizable, f.savings,
            createdAt, updatedAt)
  }

  /** The document an accepted record reads back as. */
  function Render(f: Fields): RawDoc {
    RawDoc(Some(Label(f.category)), Some(f.description), Some(f.amount), f.date,
           f.optimizable, f.savings)
  }

  /** `Expense.create(body)`: applies the `trim` setter and the three defaults. */
  function WithDefaults(input: ExpenseInput, now: Date): (raw: RawDoc)
    ensures raw.description.Some? ==> IsTrimmed(raw.description.value)
  {
    RawDoc(
      input.category,
      if input.description.Some? then Some(Trim(input.description.value)) else None,
      input.amount,
      input.date.GetOr(now),
      input.optimizable.GetOr(false),
      input.savings.GetOr(0.0))
  }

  // ------------------------------------------------------------ validation

  /** The schema's validators; Mongoose reports at most one per path. */
  datatype Violation =
    | CategoryRequired
    | CategoryNotInEnum
    | DescriptionRequired
    | AmountRequired
    | AmountNegative
    | SavingsNegative

  /** The `category` path: accepted exactly when it is one of the labels, otherwise one violation. */
  function CategoryViolations(category: Option<string>): (v: set<Violation>)
    ensures v == {} <==> category.Some? && ParseCategory(category.value).Some?
    ensures v == {} || v == {CategoryRequired} || v == {CategoryNotInEnum}
    ensures CategoryRequired in v <==> category.None? || category.value == ""
    ensures CategoryNotInEnum in v <==> category.Some? && category.value != "" && ParseCategory(category.value).None?
  {
    if category.None? || category.value == "" then {CategoryRequired}
    else if ParseCategory(category.value).None? then {CategoryNotInEnum}
    else {}
  }

  /** The `description` path: accepted exactly when present and non-empty. */
  function DescriptionViolations(description: Option<string>): (v: set<Violation>)
    ensures v == {} <==> description.Some? && description.value != []
    ensures v == {} || v == {DescriptionRequired}
  {
    if description.None? || description.value == "" then {DescriptionRequired} else {}
  }

  /** The `amount` path: accepted exactly when present and not negative, otherwise one violation. */
  function AmountViolations(amount: Option<real>): (v: set<Violation>)
    ensures v == {} <==> amount.Some? && amount.value >= 0.0
    ensures v == {} || v == {AmountRequired} || v == {AmountNegative}
    ensures AmountRequired in v <==> amount.None?
    ensures AmountNegative in v <==> amount.Some? && amount.value < 0.0
  {
    if amount.None? then {AmountRequired}
    else if amount.value < 0.0 then {AmountNegative}
    else {}
  }

  /**
   * Everything the validators report on a document: nothing exactly when
   * every path passes, never two violations on the same path, and each
   * failing path its own violation (`required` before `enum` and `min`).
   */
  function Violations(raw: RawDoc): (v: set<Violation>)
    ensures v == {} <==>
              && raw.category.Some? && ParseCategory(raw.category.value).Some?
              && raw.description.Some? && raw.description.value != []
              && raw.amount.Some? && raw.amount.value >= 0.0
              && raw.savings >= 0.0
    ensures !(CategoryRequired in v && CategoryNotInEnum in v)
    ensures !(AmountRequired in v && AmountNegative in v)
    ensures CategoryRequired in v <==> raw.category.None? || raw.category.value == ""
    ensures CategoryNotInEnum in v <==> raw.category.Some? && raw.category.value != "" && ParseCategory(raw.category.value).None?
    ensures DescriptionRequired in v <==> raw.description.None? || raw.description.value == ""
    ensures AmountRequired in v <==> raw.amount.None?
    ensures AmountNegative in v <==> raw.amount.Some? && raw.amount.value < 0.0
    ensures SavingsNegative in v <==> raw.savings < 0.0
  {
    CategoryViolations(raw.category)
    + DescriptionViolations(raw.description)
    + AmountViolations(raw.amount)
    + (if raw.savings < 0.0 then {SavingsNegative} else {})
  }

  datatype Checked = Accepted(fields: Fields) | Rejected(violations: set<Violation>)

  /**
   * `validate()` before a save. An accepted document is valid and reads
   * back as exactly the document that was checked; a rejected one comes
   * with a non-empty list of violations.
   */
  function Validate(raw: RawDoc): (r: Checked)
    requires raw.description.Some? ==> IsTrimmed(raw.description.value)
    ensures r.Accepted? ==> ValidFields(r.fields) && Render(r.fields) == raw
    ensures r.Rejected? ==> r.violations != {} && r.violations == Violations(raw)
  {
    if Violations(raw) != {} then Rejected(Violations(raw))
    else
      var c := ParseCategory(raw.category.value).value;
      Accepted(Fields(c, raw.description.value, raw.amount.value, raw.date,
                      raw.optimizable, raw.savings))
  }

  /** Conversely, every valid record passes validation unchanged. */
  lemma ValidateAcceptsValid(f: Fields)
    requires ValidFields(f)
    ensures Validate(Render(f)) == Accepted(f)
  {
    ParseLabelAt(f.category);
  }

  /** The body of a create request that supplies every field of `f`. */
  function InputOf(f: Fields): ExpenseInput {
    ExpenseInput(Some(Label(f.category)), Some(f.description), Some(f.amount),
                 Some(f.date), Some(f.optimizable), Some(f.savings))
  }

  /** Creating from a valid record's own fields gives back that record. */
  lemma CreateRoundTrip(f: Fields, now: Date)
    requires ValidFields(f)
    ensures Validate(WithDefaults(InputOf(f), now)) == Accepted(f)
  {
    TrimIdempotent(f.description);
    ValidateAcceptsValid(f);
  }

  /**
   * Omitting `date`, `optimizable` and `savings` gives the creation time,
   * `false` and `0`; the supplied fields are kept, the description trimmed.
   */
  lemma CreateDefaults(category: Category, description: string, amount: real, now: Date)
    requires Trim(description) != [] && amount >= 0.0
    ensures Validate(WithDefaults(
              ExpenseInput(Some(Label(category)), Some(description), Some(amount), None, None, None),
              now))
            == Accepted(Fields(category, Trim(description), amount, now, false, 0.0))
  {
    ValidateAcceptsValid(Fields(category, Trim(description), amount, now, false, 0.0));
  }

  /**
   * Field by field, a created record holds what the body supplied (the
   * description trimmed) and, for an omitted date, `optimizable` or
   * `savings`, the creation time, `false` and `0`.
   */
  lemma CreateFieldByField(input: ExpenseInput, now: Date, f: Fields)
    requires Validate(WithDefaults(input, now)) == Accepted(f)
    ensures input.category.Some? && Label(f.category) == input.category.value
    ensures input.description.Some? && f.description == Trim(input.description.value)
    ensures input.amount.Some? && f.amount == input.amount.value
    ensures f.date == input.date.GetOr(now)
    ensures f.optimizable == input.optimizable.GetOr(false)
    ensures f.savings == input.savings.GetOr(0.0)
  {
  }

  /** A missing or unknown category, or a negative amount or savings, is rejected. */
  lemma CreateRejects(input: ExpenseInput, now: Date)
    requires || input.category.None?
             || ParseCategory(input.category.value).None?
             || (input.amount.Some? && input.amount.value < 0.0)
             || (input.savings.Some? && input.savings.value < 0.0)
             || input.description.None?
    ensures Validate(WithDefaults(input, now)).Rejected?
  {
    var raw := WithDefaults(input, now);
    if Validate(raw).Accepted? {
      var f := Validate(raw).fields;
      ParseLabelAt(f.category);
    }
  }
}
