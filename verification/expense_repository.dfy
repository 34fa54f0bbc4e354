/** The expense store (src/expenses/repository/expense.repository.ts): creating a
    record with its time buckets, and the listing query — cursor check, the
    where-clause built column by column, order, limit and count. The table is a
    sequence of rows; the rows a query returns are those the where-clause keeps,
    sorted, cut to `first`. */
module ExpenseRepository {
  import opened Results
  import Calendar
  import Text
  import Decimal
  import Sequences
  import opened ExpenseEntity
  import opened SearchExpenseInput

  /** How an instant is written as text and read back: `show` is the text a
      `createdAt` value takes when it is put into a cursor, `parse` stands for
      both `new Date(s).getTime()` and `dayjs(s)` (`None` for an invalid date).
      Both depend on the driver, the time zone and the JavaScript engine, so they
      stay parameters. */
  datatype InstantFormat = InstantFormat(show: int -> string, parse: string -> Option<int>)

  // ---------------------------------------------------------------------------
  // createExpense

  /** `CreateExpenseInput` once validated: `date` is the parsed date string. */
  datatype CreateExpenseInput = CreateExpenseInput(
    categoryId: string,
    amount: int,
    currency: string,
    description: string,
    date: Calendar.Date)

  /** `createExpense`: the record with the buckets of its date — the calendar
      year, the 0-based month and the ISO 8601 week number. `id` and `createdAt`
      are the values the database generates. */
  function CreateExpense(owner: string, category: string, input: CreateExpenseInput, id: string, createdAt: int): (e: Expense)
    requires Calendar.IsValid(input.date)
    ensures e.id == id && e.owner == owner && e.category == category && e.createdAt == createdAt
    ensures e.amount == input.amount && e.currency == input.currency
    ensures e.description == input.description && e.date == input.date
    // the year bucket is the calendar year, not the ISO week-year
    ensures e.year == input.date.year
    ensures e.month == input.date.month - 1 && 0 <= e.month <= 11
    ensures e.week == Calendar.IsoWeek(input.date) && 1 <= e.week <= 53
  {
    Calendar.IsoWeekRange(input.date);
    Expense(id, owner, category, input.amount, input.currency, input.description, input.date,
            Calendar.IsoWeek(input.date), Calendar.MonthIndex(input.date), input.date.year, createdAt)
  }

  // ---------------------------------------------------------------------------
  // The where-clause

  /** The columns a filter can be put on. */
  datatype Column = YearCol | MonthCol | WeekCol | DateCol | DescriptionCol | AmountCol | CreatedAtCol | CategoryCol

  datatype Value = IntValue(n: int) | DateValue(d: Calendar.Date) | TextValue(s: string)

  /** The TypeORM find operators the query uses. `ILike(p)` is `ILIKE '%p%'`;
      `Around(a)` is `Between(a * 0.8, a * 1.2)`, in exact integer form. */
  datatype Constraint = Is(v: Value) | ILike(pattern: string) | Around(a: int) | MoreThan(bound: int) | LessThan(bound: int)

  function ValueOf(e: Expense, col: Column): Value {
    match col
    case YearCol => IntValue(e.year)
    case MonthCol => IntValue(e.month)
    case WeekCol => IntValue(e.week)
    case DateCol => DateValue(e.date)
    case DescriptionCol => TextValue(e.description)
    case AmountCol => IntValue(e.amount)
    case CreatedAtCol => IntValue(e.createdAt)
    case CategoryCol => TextValue(e.category)
  }

  /** `x BETWEEN 0.8a AND 1.2a`, that is `4a <= 5x <= 6a`. */
  predicate NearAmount(x: int, a: int) {
    4 * a <= 5 * x <= 6 * a
  }

  predicate Satisfies(v: Value, c: Constraint) {
    match c
    case Is(w) => v == w
    case ILike(p) => v.TextValue? && Text.LikeContains(Text.Lower(v.s), Text.Lower(p))
    case Around(a) => v.IntValue? && NearAmount(v.n, a)
    case MoreThan(b) => v.IntValue? && v.n > b
    case LessThan(b) => v.IntValue? && v.n < b
  }

  /** The row belongs to `owner` and satisfies every filter. */
  predicate Matches(e: Expense, owner: string, filters: map<Column, Constraint>) {
    e.owner == owner && forall col :: col in filters ==> Satisfies(ValueOf(e, col), filters[col])
  }

  /** JavaScript truthiness of an optional number and of an optional string. */
  predicate IntTruthy(v: Option<int>) {
    v.Some? && v.value != 0
  }

  predicate HasText(v: Option<string>) {
    v.Some? && v.value != ""
  }

  function SortColumn(f: OrderField): Column {
    match f
    case CreatedAt => CreatedAtCol
    case Amount => AmountCol
  }

  /** The year is always constrained; the date type adds the month, the week or
      the exact day. */
  function DateFilters(d: Calendar.Date, t: DateType): map<Column, Constraint>
    requires Calendar.IsValid(d)
  {
    var year := map[YearCol := Is(IntValue(d.year))];
    match t
    case Year => year
    case Month => year[MonthCol := Is(IntValue(Calendar.MonthIndex(d)))]
    case Week => year[WeekCol := Is(IntValue(Calendar.IsoWeek(d)))]
    case Day => year[DateCol := Is(DateValue(d))]
  }

  /** The cursor check: a decoded cursor passes when it reads as a date whose
      time is not 0, or when `parseInt` finds a non-zero number in it. */
  predicate CursorPasses(decoded: string, fmt: InstantFormat) {
    IntTruthy(fmt.parse(decoded)) || IntTruthy(Decimal.ParseInt(decoded))
  }

  /** The value a decoded cursor bounds the sort column by: an instant for
      `createdAt`, a `parseInt` number for `amount`. */
  function KeysetValue(f: OrderField, decoded: string, fmt: InstantFormat): Option<int> {
    match f
    case CreatedAt => fmt.parse(decoded)
    case Amount => Decimal.ParseInt(decoded)
  }

  function KeysetConstraint(dir: Direction, b: int): Constraint {
    if dir == Asc then MoreThan(b) else LessThan(b)
  }

  /** The filters of `getExpenses`, in the order the source assigns them; the
      keyset bound is assigned to the sort column and so replaces an amount
      range there. An unreadable bound (an invalid date handed to `dayjs`, or
      `NaN` handed to the database) fails the request. */
  function BuildFilters(search: SearchInput, decodedAfter: Option<string>, category: Option<string>, fmt: InstantFormat): (r: Result<map<Column, Constraint>>)
    requires search.date.Some? ==> Calendar.IsValid(search.date.value)
    ensures r.Failure? <==> HasText(decodedAfter) && KeysetValue(search.order.field, decodedAfter.value, fmt).None?
    ensures r.Failure? ==> r.error == InternalServerError
  {
    var f0 := if search.date.Some? then DateFilters(search.date.value, search.dateType) else map[];
    var f1 := if HasText(search.description) then f0[DescriptionCol := ILike(Text.Lower(search.description.value))] else f0;
    var f2 := if IntTruthy(search.amount) then f1[AmountCol := Around(search.amount.value)] else f1;
    if HasText(decodedAfter) && KeysetValue(search.order.field, decodedAfter.value, fmt).None? then
      Failure(InternalServerError)
    else
      var f3 := if HasText(decodedAfter) then
                  f2[SortColumn(search.order.field) := KeysetConstraint(search.order.direction, KeysetValue(search.order.field, decodedAfter.value, fmt).value)]
                else f2;
      Success(if category.Some? then f3[CategoryCol := Is(TextValue(category.value))] else f3)
  }

  // ---------------------------------------------------------------------------
  // The where-clause, stated condition by condition

  /** The keyset bound in force: the cursor's value when a cursor is given. */
  function ActiveBound(search: SearchInput, decodedAfter: Option<string>, fmt: InstantFormat): Option<int> {
    if HasText(decodedAfter) then KeysetValue(search.order.field, decodedAfter.value, fmt) else None
  }

  /** The row lies in the bucket of the reference date `d` of kind `t`. */
  predicate InBucket(e: Expense, d: Calendar.Date, t: DateType)
    requires Calendar.IsValid(d)
  {
    && e.year == d.year
    && match t
       case Year => true
       case Month => e.month == Calendar.MonthIndex(d)
       case Week => e.week == Calendar.IsoWeek(d)
       case Day => e.date == d
  }

  function SortKey(e: Expense, f: OrderField): int {
    match f
    case CreatedAt => e.createdAt
    case Amount => e.amount
  }

  /** The row lies strictly past the bound in the direction of the order. */
  predicate Beyond(e: Expense, order: Order, b: int) {
    if order.direction == Asc then SortKey(e, order.field) > b else SortKey(e, order.field) < b
  }

  /** What a listing selects, one condition per request field: the owner, the
      category when one is given, the date bucket when a date is given, the
      description when it is non-empty, the amount range when the amount is
      non-zero and no keyset bound sits on the amount column, and the keyset
      bound when there is one. (The validator rules out an invalid date; none
      would be selected by it.) */
  predicate Selected(e: Expense, owner: string, search: SearchInput, bound: Option<int>, category: Option<string>) {
    && e.owner == owner
    && (category.Some? ==> e.category == category.value)
    && (search.date.Some? ==> Calendar.IsValid(search.date.value) && InBucket(e, search.date.value, search.dateType))
    && (HasText(search.description) ==>
          Text.LikeContains(Text.Lower(e.description), Text.Lower(search.description.value)))
    && (IntTruthy(search.amount) && !(bound.Some? && search.order.field == Amount) ==>
          NearAmount(e.amount, search.amount.value))
    && (bound.Some? ==> Beyond(e, search.order, bound.value))
  }

  /** The constraint each column carries, read off the request: the keyset
      bound takes the sort column, whatever was assigned to it before. */
  function FilterOn(col: Column, search: SearchInput, bound: Option<int>, category: Option<string>): Option<Constraint>
    requires search.date.Some? ==> Calendar.IsValid(search.date.value)
  {
    var d := search.date;
    var keyed := bound.Some? && col == SortColumn(search.order.field);
    if keyed then Some(KeysetConstraint(search.order.direction, bound.value))
    else
      match col
      case YearCol => if d.Some? then Some(Is(IntValue(d.value.year))) else None
      case MonthCol =>
        if d.Some? && search.dateType == Month then Some(Is(IntValue(Calendar.MonthIndex(d.value)))) else None
      case WeekCol =>
        if d.Some? && search.dateType == Week then Some(Is(IntValue(Calendar.IsoWeek(d.value)))) else None
      case DateCol => if d.Some? && search.dateType == Day then Some(Is(DateValue(d.value))) else None
      case DescriptionCol =>
        if HasText(search.description) then Some(ILike(Text.Lower(search.description.value))) else None
      case AmountCol => if IntTruthy(search.amount) then Some(Around(search.amount.value)) else None
      case CreatedAtCol => None
      case CategoryCol => if category.Some? then Some(Is(TextValue(category.value))) else None
  }

  predicate Holds(e: Expense, col: Column, c: Option<Constraint>) {
    c.None? || Satisfies(ValueOf(e, col), c.value)
  }

  lemma BuildFiltersPerColumn(search: SearchInput, decodedAfter: Option<string>, category: Option<string>, fmt: InstantFormat, col: Column)
    requires search.date.Some? ==> Calendar.IsValid(search.date.value)
    requires BuildFilters(search, decodedAfter, category, fmt).Success?
    ensures var filters := BuildFilters(search, decodedAfter, category, fmt).value;
            var c := FilterOn(col, search, ActiveBound(search, decodedAfter, fmt), category);
            && (col in filters <==> c.Some?)
            && (col in filters ==> filters[col] == c.value)
  {
  }

  /** Row by row, the filter map means its columns' constraints. */
  lemma MatchesPerColumn(e: Expense, owner: string, search: SearchInput, decodedAfter: Option<string>, category: Option<string>, fmt: InstantFormat)
    requires search.date.Some? ==> Calendar.IsValid(search.date.value)
    requires BuildFilters(search, decodedAfter, category, fmt).Success?
    ensures Matches(e, owner, BuildFilters(search, decodedAfter, category, fmt).value)
            <==> e.owner == owner && forall col :: Holds(e, col, FilterOn(col, search, ActiveBound(search, decodedAfter, fmt), category))
  {
    var filters := BuildFilters(search, decodedAfter, category, fmt).value;
    var bound := ActiveBound(search, decodedAfter, fmt);
    forall col
      ensures Holds(e, col, FilterOn(col, search, bound, category))
              <==> (col in filters ==> Satisfies(ValueOf(e, col), filters[col]))
    {
      BuildFiltersPerColumn(search, decodedAfter, category, fmt, col);
    }
  }

  /** The per-column constraints hold exactly when the row is `Selected`. */
  lemma ColumnsMeanSelected(e: Expense, owner: string, search: SearchInput, bound: Option<int>, category: Option<string>)
    requires search.date.Some? ==> Calendar.IsValid(search.date.value)
    ensures (e.owner == owner && forall col :: Holds(e, col, FilterOn(col, search, bound, category)))
            <==> Selected(e, owner, search, bound, category)
  {
    var h := (col: Column) => Holds(e, col, FilterOn(col, search, bound, category));
    if Selected(e, owner, search, bound, category) {
      forall col
        ensures h(col)
      {
        match col
        case YearCol =>
        case MonthCol =>
        case WeekCol =>
        case DateCol =>
        case DescriptionCol =>
          if HasText(search.description) {
            Text.LowerIdempotent(search.description.value);
          }
        case AmountCol =>
        case CreatedAtCol =>
        case CategoryCol =>
      }
    }
    if e.owner == owner && forall col :: h(col) {
      assert h(YearCol) && h(MonthCol) && h(WeekCol) && h(DateCol);
      assert h(DescriptionCol) && h(AmountCol) && h(CreatedAtCol) && h(CategoryCol);
      if HasText(search.description) {
        Text.LowerIdempotent(search.description.value);
      }
    }
  }

  /** The filters `getExpenses` builds keep exactly the rows `Selected` describes. */
  lemma FiltersMeanSelected(e: Expense, owner: string, search: SearchInput, decodedAfter: Option<string>, category: Option<string>, fmt: InstantFormat)
    requires search.date.Some? ==> Calendar.IsValid(search.date.value)
    requires BuildFilters(search, decodedAfter, category, fmt).Success?
    ensures Matches(e, owner, BuildFilters(search, decodedAfter, category, fmt).value)
            <==> Selected(e, owner, search, ActiveBound(search, decodedAfter, fmt), category)
  {
    MatchesPerColumn(e, owner, search, decodedAfter, category, fmt);
    ColumnsMeanSelected(e, owner, search, ActiveBound(search, decodedAfter, fmt), category);
  }

  // ---------------------------------------------------------------------------
  // Order, limit and count

  /** The order the query requests: ascending or descending on the sort column. */
  function OrderLe(order: Order): (Expense, Expense) -> bool {
    (a: Expense, b: Expense) =>
      if order.direction == Asc then SortKey(a, order.field) <= SortKey(b, order.field)
      else SortKey(a, order.field) >= SortKey(b, order.field)
  }

  lemma OrderIsTotalPreorder(order: Order)
    ensures Sequences.IsTotalPreorder(OrderLe(order))
  {
  }

  /** `getExpenses`: the owner's rows that the where-clause keeps, ordered by the
      requested column and direction, at most `first` of them, together with the
      number of rows the same where-clause keeps — keyset bound included, limit
      not. A non-empty decoded cursor that reads neither as a date nor as a
      non-zero number is refused before any query. Rows that tie on the sort
      column keep their storage order. */
  function GetExpenses(rows: seq<Expense>, owner: string, search: SearchInput, decodedAfter: Option<string>, category: Option<string>, fmt: InstantFormat): (r: Result<(seq<Expense>, nat)>)
    requires search.first >= 1
    requires search.date.Some? ==> Calendar.IsValid(search.date.value)
    ensures (r.Failure? && r.error == BadRequest) <==> HasText(decodedAfter) && !CursorPasses(decodedAfter.value, fmt)
    ensures (r.Failure? && r.error == InternalServerError) <==>
              && HasText(decodedAfter) && CursorPasses(decodedAfter.value, fmt)
              && KeysetValue(search.order.field, decodedAfter.value, fmt).None?
    ensures r.Failure? ==> r.error == BadRequest || r.error == InternalServerError
    ensures r.Success? ==>
              var page, count := r.value.0, r.value.1;
              var bound := ActiveBound(search, decodedAfter, fmt);
              && (forall e :: e in page ==> e in rows && Selected(e, owner, search, bound, category))
              && Sequences.RowsOf(page, rows)
              && Sequences.SortedBy(page, OrderLe(search.order))
              && count == |Sequences.Filter(rows, (e: Expense) => Selected(e, owner, search, bound, category))|
              && |page| == (if search.first < count then search.first else count)
              // no selected row is skipped: those left out all come after the page
              && (forall x, y :: x in rows && Selected(x, owner, search, bound, category) && x !in page && y in page ==>
                    OrderLe(search.order)(y, x))
  {
    if HasText(decodedAfter) && !CursorPasses(decodedAfter.value, fmt) then Failure(BadRequest)
    else
      var filters :- BuildFilters(search, decodedAfter, category, fmt);
      var matching := Sequences.Filter(rows, (e: Expense) => Matches(e, owner, filters));
      OrderIsTotalPreorder(search.order);
      var sorted := Sequences.Sort(matching, OrderLe(search.order));
      var page := Sequences.Take(sorted, search.first);
      SelectionFacts(rows, owner, search, decodedAfter, category, fmt, filters, matching, sorted, page);
      Success((page, |matching|))
  }

  lemma SelectionFacts(rows: seq<Expense>, owner: string, search: SearchInput, decodedAfter: Option<string>, category: Option<string>, fmt: InstantFormat,
                       filters: map<Column, Constraint>, matching: seq<Expense>, sorted: seq<Expense>, page: seq<Expense>)
    requires search.first >= 1
    requires search.date.Some? ==> Calendar.IsValid(search.date.value)
    requires BuildFilters(search, decodedAfter, category, fmt) == Success(filters)
    requires matching == Sequences.Filter(rows, (e: Expense) => Matches(e, owner, filters))
    requires Sequences.IsTotalPreorder(OrderLe(search.order))
    requires sorted == Sequences.Sort(matching, OrderLe(search.order))
    requires page == Sequences.Take(sorted, search.first)
    ensures var bound := ActiveBound(search, decodedAfter, fmt);
            && (forall e :: e in page ==> e in rows && Selected(e, owner, search, bound, category))
            && Sequences.RowsOf(page, rows)
            && Sequences.SortedBy(page, OrderLe(search.order))
            && |matching| == |Sequences.Filter(rows, (e: Expense) => Selected(e, owner, search, bound, category))|
            && |page| == (if search.first < |matching| then search.first else |matching|)
            && (forall x, y :: x in rows && Selected(x, owner, search, bound, category) && x !in page && y in page ==>
                  OrderLe(search.order)(y, x))
  {
    var bound := ActiveBound(search, decodedAfter, fmt);
    var sel := (e: Expense) => Selected(e, owner, search, bound, category);
    var mat := (e: Expense) => Matches(e, owner, filters);
    forall e
      ensures mat(e) == sel(e)
    {
      FiltersMeanSelected(e, owner, search, decodedAfter, category, fmt);
    }
    Sequences.FilterCongruent(rows, mat, sel);
    assert |sorted| == |matching| by {
      assert |multiset(sorted)| == |multiset(matching)|;
    }
    forall e | e in page
      ensures e in rows && Selected(e, owner, search, bound, category)
    {
      assert e in multiset(sorted);
      FiltersMeanSelected(e, owner, search, decodedAfter, category, fmt);
    }
    assert Sequences.SortedBy(page, OrderLe(search.order)) by {
      forall i, j | 0 <= i < j < |page|
        ensures OrderLe(search.order)(page[i], page[j])
      {
        assert page[i] == sorted[i] && page[j] == sorted[j];
      }
    }
    forall x, y | x in rows && Selected(x, owner, search, bound, category) && x !in page && y in page
      ensures OrderLe(search.order)(y, x)
    {
      FiltersMeanSelected(x, owner, search, decodedAfter, category, fmt);
      assert x in matching;
      assert x in multiset(matching);
      assert x in sorted;
      Sequences.TakeSkipsNothing(sorted, search.first, OrderLe(search.order), x);
    }
  }

  // ---------------------------------------------------------------------------
  // getExpense

  /** `getExpense`: the owner's row with the given id. The source does not await
      the lookup, so its not-found branch is never taken and a missing row comes
      back as an empty result. */
  function GetExpense(rows: seq<Expense>, owner: string, id: string): (r: Option<Expense>)
    ensures r.Some? ==> r.value in rows && r.value.id == id && r.value.owner == owner
    ensures r.None? <==> forall e :: e in rows ==> !(e.id == id && e.owner == owner)
  {
    match Sequences.FindFirst(rows, (e: Expense) => e.id == id && e.owner == owner)
    case None => None
    case Some(i) => Some(rows[i])
  }

  // ---------------------------------------------------------------------------
  // Consequences

  /** The amount range is inclusive on both ends: for 1000, 800 and 1200 match,
      799 and 1201 do not. */
  lemma AmountRangeExample()
    ensures Satisfies(IntValue(800), Around(1000)) && Satisfies(IntValue(1199), Around(1000))
    ensures Satisfies(IntValue(1200), Around(1000))
    ensures !Satisfies(IntValue(799), Around(1000)) && !Satisfies(IntValue(1201), Around(1000))
  {
  }

  /** The week bucket of a new record is the number of the ISO 8601 week that
      holds its date: the date lies that many weeks, counted from 1, after the
      Monday of week 1 of its week-year, and before week 1 of the next. */
  lemma CreatedWeekIsIsoWeek(owner: string, category: string, input: CreateExpenseInput, id: string, createdAt: int)
    requires Calendar.IsValid(input.date)
    ensures var e := CreateExpense(owner, category, input, id, createdAt);
            var n, y := Calendar.DayNumber(input.date), Calendar.IsoWeekYear(input.date);
            && Calendar.Week1Monday(y) <= n < Calendar.Week1Monday(y + 1)
            && e.week == (n - Calendar.Week1Monday(y)) / 7 + 1
  {
    Calendar.IsoWeekStandard(input.date);
  }

  /** A record is found by a search on its own date, whatever the date type. */
  lemma CreatedExpenseInOwnBuckets(owner: string, category: string, input: CreateExpenseInput, id: string, createdAt: int, t: DateType)
    requires Calendar.IsValid(input.date)
    ensures InBucket(CreateExpense(owner, category, input, id, createdAt), input.date, t)
  {
  }

  /** The week bucket is paired with the calendar year, not the ISO week-year:
      an expense of 31 December 2024 (ISO week 1 of 2025) is not found by a week
      search on 2 January 2025, which lies in the same ISO week, but is found by
      a week search on 2 January 2024, a year earlier. */
  lemma WeekBucketUsesCalendarYear(owner: string, category: string, input: CreateExpenseInput, id: string, createdAt: int,
                                   sameWeek: Calendar.Date, yearBefore: Calendar.Date)
    requires input.date == Calendar.Date(2024, 12, 31)
    requires sameWeek == Calendar.Date(2025, 1, 2) && yearBefore == Calendar.Date(2024, 1, 2)
    ensures Calendar.IsValid(input.date) && Calendar.IsValid(sameWeek) && Calendar.IsValid(yearBefore)
    ensures var e := CreateExpense(owner, category, input, id, createdAt);
            && Calendar.IsoWeekYear(sameWeek) == Calendar.IsoWeekYear(input.date)
            && Calendar.IsoWeek(sameWeek) == Calendar.IsoWeek(input.date)
            && !InBucket(e, sameWeek, Week)
            && InBucket(e, yearBefore, Week)
  {
    Calendar.LastDayOf2024(input.date);
    Calendar.SecondOfJanuary2025(sameWeek);
    NotInNextYearsWeek(owner, category, input, id, createdAt, sameWeek);
    InPreviousYearsWeek(owner, category, input, id, createdAt, yearBefore);
  }

  lemma NotInNextYearsWeek(owner: string, category: string, input: CreateExpenseInput, id: string, createdAt: int, sameWeek: Calendar.Date)
    requires input.date == Calendar.Date(2024, 12, 31) && sameWeek == Calendar.Date(2025, 1, 2)
    ensures Calendar.IsValid(input.date) && Calendar.IsValid(sameWeek)
    ensures !InBucket(CreateExpense(owner, category, input, id, createdAt), sameWeek, Week)
  {
    Calendar.LastDayOf2024(input.date);
    Calendar.SecondOfJanuary2025(sameWeek);
  }

  lemma InPreviousYearsWeek(owner: string, category: string, input: CreateExpenseInput, id: string, createdAt: int, yearBefore: Calendar.Date)
    requires input.date == Calendar.Date(2024, 12, 31) && yearBefore == Calendar.Date(2024, 1, 2)
    ensures Calendar.IsValid(input.date) && Calendar.IsValid(yearBefore)
    ensures InBucket(CreateExpense(owner, category, input, id, createdAt), yearBefore, Week)
  {
    Calendar.LastDayOf2024(input.date);
    Calendar.SecondOfJanuary2024(yearBefore);
  }

  /** With a keyset bound on the amount column the amount range is gone: a row
      far below the requested amount is selected. */
  lemma AmountBoundReplacesRange(e: Expense, owner: string, search: SearchInput)
    requires e.owner == owner && e.amount == 5
    requires search.date.None? && search.description.None?
    requires search.amount == Some(1000) && search.order == Order(Amount, Desc)
    ensures !NearAmount(e.amount, 1000)
    ensures Selected(e, owner, search, Some(2024), None)
  {
  }

  /** Without a date the date type plays no part. */
  lemma NoDateNoBucket(e: Expense, owner: string, search: SearchInput, bound: Option<int>, category: Option<string>, t: DateType)
    requires search.date.None?
    ensures Selected(e, owner, search, bound, category) == Selected(e, owner, search.(dateType := t), bound, category)
  {
  }
}
