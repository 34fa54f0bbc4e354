/** The expense operations of the service layer
    (src/expenses/expenses.service.ts): creation scoped to the caller, the
    cursor-paged listing, the field-copy update and deletion. */
module ExpensesService {
  import opened Results
  import Calendar
  import Base64
  import Sequences
  import Decimal
  import CommonService
  import UserRepository
  import CategoryRepository
  import opened ExpenseEntity
  import opened SearchExpenseInput
  import ExpenseRepository

  type User = UserRepository.User
  type Category = CategoryRepository.Category
  type InstantFormat = ExpenseRepository.InstantFormat

  // ---------------------------------------------------------------------------
  // createExpense

  /** `createExpense`: the caller's account must exist, and the category is
      resolved among the caller's own categories, before the record is created
      for both. */
  function CreateExpense(users: seq<User>, cats: seq<Category>, rows: seq<Expense>, id: string,
                         input: ExpenseRepository.CreateExpenseInput, newId: string, createdAt: int): (r: Result<(seq<Expense>, Expense)>)
    requires Calendar.IsValid(input.date)
    ensures (forall u :: u in users ==> u.id != id) ==> r == Failure(NotFound)
    ensures (exists u :: u in users && u.id == id) ==>
              (r.Failure? <==> CategoryRepository.GetCategory(cats, id, input.categoryId).Failure?)
              && (r.Failure? ==> r.error == CategoryRepository.GetCategory(cats, id, input.categoryId).error)
    ensures r.Success? ==>
              var e := r.value.1;
              && r.value.0 == rows + [e]
              && e.owner == id && (exists u :: u in users && u.id == id)
              && (exists c :: c in cats && c.owner == id && c.id == e.category)
              && e == ExpenseRepository.CreateExpense(id, e.category, input, newId, createdAt)
  {
    var user :- UserRepository.GetUserById(users, id);
    var category :- CategoryRepository.GetCategory(cats, id, input.categoryId);
    var e := ExpenseRepository.CreateExpense(user.id, category.id, input, newId, createdAt);
    Success((rows + [e], e))
  }

  // ---------------------------------------------------------------------------
  // getExpenses

  /** The cursor of a row is always built from its creation instant, in the text
      form the instant takes when it is put into a buffer. */
  function CursorOf(fmt: InstantFormat): Expense -> CommonService.CursorValue {
    (e: Expense) => CommonService.StringValue(fmt.show(e.createdAt))
  }

  /** The decoded `after`: decoded only when it is present and non-empty; bytes
      that are not UTF-8 are refused. */
  function DecodeAfter(after: Option<string>): (r: Result<Option<string>>)
    requires after.Some? ==> Base64.IsBase64(after.value)
    ensures !ExpenseRepository.HasText(after) ==> r == Success(None)
    ensures ExpenseRepository.HasText(after) ==>
              match CommonService.DecodeCursor(after.value)
              case None => r == Failure(BadRequest)
              case Some(s) => r == Success(Some(s))
  {
    if !ExpenseRepository.HasText(after) then Success(None)
    else
      match CommonService.DecodeCursor(after.value)
      case None => Failure(BadRequest)
      case Some(s) => Success(Some(s))
  }

  /** A row's cursor value reads as its creation instant's text. */
  lemma CursorOfShows(fmt: InstantFormat, e: Expense)
    ensures CommonService.StringForm(CursorOf(fmt)(e)) == fmt.show(e.createdAt)
  {
  }

  /** Every cursor of the connection is valid base64 and decodes to its row's
      creation instant as text. */
  predicate CarriesCreationTime(c: CommonService.Connection<Expense>, fmt: InstantFormat) {
    forall i :: 0 <= i < |c.edges| ==>
      && Base64.IsBase64(c.edges[i].cursor)
      && CommonService.DecodeCursor(c.edges[i].cursor) == Some(fmt.show(c.edges[i].node.createdAt))
  }

  /** The connection has edges, and its end cursor is its last edge's. */
  predicate EndsAtLastEdge(c: CommonService.Connection<Expense>) {
    |c.edges| > 0 && c.pageInfo.endCursor == c.edges[|c.edges| - 1].cursor
  }

  /** The connection of a non-empty page, whose cursors carry creation
      instants. */
  function Connect(page: seq<Expense>, count: nat, fmt: InstantFormat, first: int): (r: CommonService.Connection<Expense>)
    requires |page| > 0
    ensures r == CommonService.CursorPaginate(page, count, CursorOf(fmt), first)
    ensures CarriesCreationTime(r, fmt) && EndsAtLastEdge(r)
  {
    var c := CommonService.CursorPaginate(page, count, CursorOf(fmt), first);
    assert CarriesCreationTime(c, fmt) by {
      forall i | 0 <= i < |c.edges|
        ensures CommonService.DecodeCursor(c.edges[i].cursor) == Some(fmt.show(c.edges[i].node.createdAt))
      {
        CursorOfShows(fmt, page[i]);
      }
    }
    c
  }

  /** `getExpenses`: the repository's page of the caller's rows, as a
      connection whose cursors carry each row's creation instant — whatever the
      order field. An empty page makes the paginator read the cursor of a
      missing last edge, which throws a `TypeError`. */
  function GetExpenses(rows: seq<Expense>, owner: string, search: SearchInput, category: Option<string>, fmt: InstantFormat): (r: Result<CommonService.Connection<Expense>>)
    requires IsValid(search)
    ensures DecodeAfter(search.after).Failure? ==> r == Failure(BadRequest)
    ensures DecodeAfter(search.after).Success? ==>
              var decoded := DecodeAfter(search.after).value;
              var q := ExpenseRepository.GetExpenses(rows, owner, search, decoded, category, fmt);
              && (q.Failure? ==> r == Failure(q.error))
              && (q.Success? && |q.value.0| == 0 ==> r == Failure(TypeError))
              && (q.Success? && |q.value.0| > 0 ==>
                    && r.Success?
                    && r.value.totalCount == q.value.1
                    && r.value == CommonService.CursorPaginate(q.value.0, q.value.1, CursorOf(fmt), search.first))
    ensures r.Success? ==> CarriesCreationTime(r.value, fmt) && EndsAtLastEdge(r.value)
  {
    var decoded :- DecodeAfter(search.after);
    var q :- ExpenseRepository.GetExpenses(rows, owner, search, decoded, category, fmt);
    if |q.0| == 0 then Failure(TypeError)
    else Success(Connect(q.0, q.1, fmt, search.first))
  }

  /** Without a cursor there is no keyset bound: the page is the first `first`
      of the selected rows, and `hasNextPage` says whether there are more. */
  lemma NoCursorNoBound(rows: seq<Expense>, owner: string, search: SearchInput, category: Option<string>, fmt: InstantFormat)
    requires IsValid(search) && !ExpenseRepository.HasText(search.after)
    requires GetExpenses(rows, owner, search, category, fmt).Success?
    ensures var r := GetExpenses(rows, owner, search, category, fmt).value;
            var selected := Sequences.Filter(rows, (e: Expense) => ExpenseRepository.Selected(e, owner, search, None, category));
            && r.totalCount == |selected|
            && (r.pageInfo.hasNextPage <==> |selected| > search.first)
            && forall i :: 0 <= i < |r.edges| ==> ExpenseRepository.Selected(r.edges[i].node, owner, search, None, category)
  {
    var q := ExpenseRepository.GetExpenses(rows, owner, search, None, category, fmt);
    var r := GetExpenses(rows, owner, search, category, fmt).value;
    forall i | 0 <= i < |r.edges|
      ensures ExpenseRepository.Selected(r.edges[i].node, owner, search, None, category)
    {
      assert r.edges[i].node == q.value.0[i];
      assert q.value.0[i] in q.value.0;
    }
  }

  /** The end cursor of a connection whose cursors carry creation instants is
      valid base64 and decodes to the last row's instant as text. */
  lemma EndCursorShowsLastRow(c: CommonService.Connection<Expense>, fmt: InstantFormat)
    requires CarriesCreationTime(c, fmt) && EndsAtLastEdge(c)
    ensures Base64.IsBase64(c.pageInfo.endCursor)
    ensures CommonService.DecodeCursor(c.pageInfo.endCursor) == Some(fmt.show(c.edges[|c.edges| - 1].node.createdAt))
    ensures fmt.show(c.edges[|c.edges| - 1].node.createdAt) != "" ==> c.pageInfo.endCursor != ""
  {
    var last := |c.edges| - 1;
    assert Base64.IsBase64(c.edges[last].cursor);
    if c.pageInfo.endCursor == "" {
      assert CommonService.DecodeCursor("") == Some("");
    }
  }

  /** The request that follows a page's end cursor: it passes the validator,
      its cursor decodes to the last row's creation instant as text, and the
      bound it puts on the sort column is that text read for the sort column —
      as an instant for `createdAt`, through `parseInt` for `amount`. */
  lemma FollowEndCursor(rows: seq<Expense>, owner: string, search: SearchInput, category: Option<string>, fmt: InstantFormat)
    requires IsValid(search)
    requires GetExpenses(rows, owner, search, category, fmt).Success?
    requires var r := GetExpenses(rows, owner, search, category, fmt).value;
             fmt.show(r.edges[|r.edges| - 1].node.createdAt) != ""
    ensures var r := GetExpenses(rows, owner, search, category, fmt).value;
            var text := fmt.show(r.edges[|r.edges| - 1].node.createdAt);
            var next := search.(after := Some(r.pageInfo.endCursor));
            && IsValid(next)
            && DecodeAfter(next.after) == Success(Some(text))
            && ExpenseRepository.ActiveBound(next, Some(text), fmt) == ExpenseRepository.KeysetValue(search.order.field, text, fmt)
  {
    var r := GetExpenses(rows, owner, search, category, fmt).value;
    assert CarriesCreationTime(r, fmt) && EndsAtLastEdge(r);
    EndCursorShowsLastRow(r, fmt);
    var text := fmt.show(r.edges[|r.edges| - 1].node.createdAt);
    var next := search.(after := Some(r.pageInfo.endCursor));
    assert ExpenseRepository.HasText(next.after);
    assert DecodeAfter(next.after) == Success(Some(text));
  }

  /** Every row of a page lies past the bound of the request's cursor. */
  lemma RowsBeyondBound(rows: seq<Expense>, owner: string, search: SearchInput, category: Option<string>, fmt: InstantFormat, text: string, b: int)
    requires IsValid(search)
    requires DecodeAfter(search.after) == Success(Some(text))
    requires ExpenseRepository.ActiveBound(search, Some(text), fmt) == Some(b)
    requires GetExpenses(rows, owner, search, category, fmt).Success?
    ensures var r := GetExpenses(rows, owner, search, category, fmt).value;
            forall i :: 0 <= i < |r.edges| ==> ExpenseRepository.Beyond(r.edges[i].node, search.order, b)
  {
    var q := ExpenseRepository.GetExpenses(rows, owner, search, Some(text), category, fmt);
    var r := GetExpenses(rows, owner, search, category, fmt).value;
    forall i | 0 <= i < |r.edges|
      ensures ExpenseRepository.Beyond(r.edges[i].node, search.order, b)
    {
      assert r.edges[i].node == q.value.0[i];
      assert q.value.0[i] in q.value.0;
    }
  }

  /** Following the end cursor of a page ordered by creation time, newest first:
      when the instant's (non-empty) text reads back as a non-zero instant `b`,
      the next request is bounded by `b` — every row it returns was created
      before `b`. */
  lemma NextPageIsOlder(rows: seq<Expense>, owner: string, search: SearchInput, category: Option<string>, fmt: InstantFormat, b: int)
    requires IsValid(search) && search.order == Order(CreatedAt, Desc)
    requires GetExpenses(rows, owner, search, category, fmt).Success?
    requires var r := GetExpenses(rows, owner, search, category, fmt).value;
             var text := fmt.show(r.edges[|r.edges| - 1].node.createdAt);
             text != "" && fmt.parse(text) == Some(b) && b != 0
    ensures var next := search.(after := Some(GetExpenses(rows, owner, search, category, fmt).value.pageInfo.endCursor));
            && IsValid(next)
            && (GetExpenses(rows, owner, next, category, fmt).Success? ==>
                  forall i :: 0 <= i < |GetExpenses(rows, owner, next, category, fmt).value.edges| ==>
                    GetExpenses(rows, owner, next, category, fmt).value.edges[i].node.createdAt < b)
  {
    var r := GetExpenses(rows, owner, search, category, fmt).value;
    var text := fmt.show(r.edges[|r.edges| - 1].node.createdAt);
    var next := search.(after := Some(r.pageInfo.endCursor));
    FollowEndCursor(rows, owner, search, category, fmt);
    if GetExpenses(rows, owner, next, category, fmt).Success? {
      RowsBeyondBound(rows, owner, next, category, fmt, text, b);
    }
  }

  /** When the last row's text reads back no later than the instant it shows
      (as a faithful text form does), every row of the next page was created
      before the last row of the current one. */
  lemma NextPageOlderThanLastRow(rows: seq<Expense>, owner: string, search: SearchInput, category: Option<string>, fmt: InstantFormat, b: int)
    requires IsValid(search) && search.order == Order(CreatedAt, Desc)
    requires GetExpenses(rows, owner, search, category, fmt).Success?
    requires var r := GetExpenses(rows, owner, search, category, fmt).value;
             var text := fmt.show(r.edges[|r.edges| - 1].node.createdAt);
             text != "" && fmt.parse(text) == Some(b) && b != 0
    ensures var r := GetExpenses(rows, owner, search, category, fmt).value;
            var next := search.(after := Some(r.pageInfo.endCursor));
            b <= r.edges[|r.edges| - 1].node.createdAt && GetExpenses(rows, owner, next, category, fmt).Success? ==>
              forall i :: 0 <= i < |GetExpenses(rows, owner, next, category, fmt).value.edges| ==>
                GetExpenses(rows, owner, next, category, fmt).value.edges[i].node.createdAt < r.edges[|r.edges| - 1].node.createdAt
  {
    NextPageIsOlder(rows, owner, search, category, fmt, b);
  }

  /** With the amount order the cursor still carries the creation instant, and
      the next request reads it back with `parseInt`: the bound it puts on the
      amount column is the number the instant's text starts with, not the last
      row's amount. */
  lemma AmountOrderCursorIsCreationTime(rows: seq<Expense>, owner: string, search: SearchInput, category: Option<string>, fmt: InstantFormat)
    requires IsValid(search) && search.order.field == Amount
    requires GetExpenses(rows, owner, search, category, fmt).Success?
    requires var r := GetExpenses(rows, owner, search, category, fmt).value;
             fmt.show(r.edges[|r.edges| - 1].node.createdAt) != ""
    ensures var r := GetExpenses(rows, owner, search, category, fmt).value;
            var text := fmt.show(r.edges[|r.edges| - 1].node.createdAt);
            ExpenseRepository.ActiveBound(search.(after := Some(r.pageInfo.endCursor)), Some(text), fmt) == Decimal.ParseInt(text)
  {
    FollowEndCursor(rows, owner, search, category, fmt);
  }

  // ---------------------------------------------------------------------------
  // updateExpense

  /** `UpdateExpenseInput`, every field optional; `date` is the parsed date
      string. */
  datatype UpdateExpenseInput = UpdateExpenseInput(
    categoryHandle: Option<string>,
    amount: Option<int>,
    currency: Option<string>,
    description: Option<string>,
    date: Option<Calendar.Date>)

  /** The fields the update copies from its input, and their values. */
  datatype Field = AmountField | CurrencyField | DescriptionField | DateField
  datatype FieldValue = IntField(n: int) | TextField(s: string) | DateText(d: Calendar.Date)

  const AllFields: set<Field> := {AmountField, CurrencyField, DescriptionField, DateField}

  function FieldOf(e: Expense, k: Field): FieldValue {
    match k
    case AmountField => IntField(e.amount)
    case CurrencyField => TextField(e.currency)
    case DescriptionField => TextField(e.description)
    case DateField => DateText(e.date)
  }

  /** The copyable fields of an expense. */
  function Fields(e: Expense): map<Field, FieldValue> {
    map k | k in AllFields :: FieldOf(e, k)
  }

  /** The value the client sent for a field, if any. */
  function Sent(input: UpdateExpenseInput, k: Field): Option<FieldValue> {
    match k
    case AmountField => if input.amount.Some? then Some(IntField(input.amount.value)) else None
    case CurrencyField => if input.currency.Some? then Some(TextField(input.currency.value)) else None
    case DescriptionField => if input.description.Some? then Some(TextField(input.description.value)) else None
    case DateField => if input.date.Some? then Some(DateText(input.date.value)) else None
  }

  /** The keys of the input object once `categoryHandle` is taken out: the
      fields the client sent. */
  function InputFields(input: UpdateExpenseInput): map<Field, FieldValue> {
    map k | k in AllFields && Sent(input, k).Some? :: Sent(input, k).value
  }

  /** JavaScript truthiness of a field value; a date is a non-empty string. */
  predicate FieldTruthy(v: FieldValue) {
    match v
    case IntField(n) => n != 0
    case TextField(s) => s != ""
    case DateText(_) => true
  }

  /** The expense with the truthy fields of the input copied onto it: exactly
      what `updateInstance` does to the copyable fields, and nothing to the
      others — the time buckets included. */
  function CopyFields(e: Expense, input: UpdateExpenseInput): (r: Expense)
    ensures Fields(r) == CommonService.UpdateInstance(InputFields(input), Fields(e), FieldTruthy)
    ensures r.id == e.id && r.owner == e.owner && r.category == e.category && r.createdAt == e.createdAt
    ensures r.week == e.week && r.month == e.month && r.year == e.year
  {
    var r := e.(amount := if ExpenseRepository.IntTruthy(input.amount) then input.amount.value else e.amount,
                currency := if ExpenseRepository.HasText(input.currency) then input.currency.value else e.currency,
                description := if ExpenseRepository.HasText(input.description) then input.description.value else e.description,
                date := if input.date.Some? then input.date.value else e.date);
    CopyFieldsAgree(e, input, r);
    r
  }

  lemma CopyFieldsAgree(e: Expense, input: UpdateExpenseInput, r: Expense)
    requires r == e.(amount := if ExpenseRepository.IntTruthy(input.amount) then input.amount.value else e.amount,
                     currency := if ExpenseRepository.HasText(input.currency) then input.currency.value else e.currency,
                     description := if ExpenseRepository.HasText(input.description) then input.description.value else e.description,
                     date := if input.date.Some? then input.date.value else e.date)
    ensures Fields(r) == CommonService.UpdateInstance(InputFields(input), Fields(e), FieldTruthy)
  {
    var inp, ent := InputFields(input), Fields(e);
    var u := CommonService.UpdateInstance(inp, ent, FieldTruthy);
    assert u.Keys == AllFields;
    forall k | k in AllFields
      ensures u[k] == Fields(r)[k]
    {
      assert ent[k] == FieldOf(e, k);
      if k in inp && FieldTruthy(inp[k]) {
        assert u[k] == inp[k];
      } else {
        assert u[k] == ent[k];
      }
    }
  }

  /** The category a truthy handle resolves to, among the caller's categories. */
  function ResolveHandle(cats: seq<Category>, userId: string, handle: Option<string>): (r: Result<Option<Category>>)
    ensures !ExpenseRepository.HasText(handle) ==> r == Success(None)
    ensures ExpenseRepository.HasText(handle) ==>
              var c := CategoryRepository.GetCategory(cats, userId, handle.value);
              (c.Success? ==> r == Success(Some(c.value))) && (c.Failure? ==> r == Failure(c.error))
  {
    if !ExpenseRepository.HasText(handle) then Success(None)
    else
      var c :- CategoryRepository.GetCategory(cats, userId, handle.value);
      Success(Some(c))
  }

  /** `updateExpense`. The handle is resolved first, among the caller's own
      categories; the lookup of the expense is not awaited by the repository, so
      a missing expense is only noticed when a field is written to it, as a
      `TypeError`. The truthy fields are copied; `week`, `month` and `year` are
      not recomputed. */
  function UpdateExpense(rows: seq<Expense>, cats: seq<Category>, userId: string, expenseId: string, input: UpdateExpenseInput): (r: Result<(seq<Expense>, Expense)>)
    ensures ResolveHandle(cats, userId, input.categoryHandle).Failure? ==>
              r == Failure(ResolveHandle(cats, userId, input.categoryHandle).error)
    ensures ResolveHandle(cats, userId, input.categoryHandle).Success? ==>
              (r.Failure? <==> ExpenseRepository.GetExpense(rows, userId, expenseId).None?)
    ensures r.Failure? && r.error == TypeError ==> ExpenseRepository.GetExpense(rows, userId, expenseId).None?
    ensures r.Success? ==>
              && ExpenseRepository.GetExpense(rows, userId, expenseId).Some?
              && var before, e := ExpenseRepository.GetExpense(rows, userId, expenseId).value, r.value.1;
              var resolved := ResolveHandle(cats, userId, input.categoryHandle).value;
              && e.id == expenseId && e.owner == userId && e.createdAt == before.createdAt
              && e.week == before.week && e.month == before.month && e.year == before.year
              && e.category == (if resolved.Some? then resolved.value.id else before.category)
              && (resolved.Some? ==> resolved.value in cats && resolved.value.owner == userId)
              && Fields(e) == CommonService.UpdateInstance(InputFields(input), Fields(before), FieldTruthy)
              && exists i :: 0 <= i < |rows| && rows[i] == before && r.value.0 == rows[i := e]
  {
    var resolved :- ResolveHandle(cats, userId, input.categoryHandle);
    match Sequences.FindFirst(rows, (e: Expense) => e.id == expenseId && e.owner == userId)
    case None => Failure(TypeError)
    case Some(i) =>
      var withCategory := if resolved.Some? then rows[i].(category := resolved.value.id) else rows[i];
      var e := CopyFields(withCategory, input);
      assert Fields(withCategory) == Fields(rows[i]);
      Success((rows[i := e], e))
  }

  /** A changed date leaves the buckets behind: when the new date lies in
      another year, the expense is found by no search on its new date. */
  lemma StaleBuckets(rows: seq<Expense>, cats: seq<Category>, userId: string, expenseId: string, input: UpdateExpenseInput, t: DateType)
    requires UpdateExpense(rows, cats, userId, expenseId, input).Success?
    requires input.date.Some? && Calendar.IsValid(input.date.value)
    requires ExpenseRepository.GetExpense(rows, userId, expenseId).value.year != input.date.value.year
    ensures UpdateExpense(rows, cats, userId, expenseId, input).value.1.date == input.date.value
    ensures !ExpenseRepository.InBucket(UpdateExpense(rows, cats, userId, expenseId, input).value.1, input.date.value, t)
  {
    var e := UpdateExpense(rows, cats, userId, expenseId, input).value.1;
    var before := ExpenseRepository.GetExpense(rows, userId, expenseId).value;
    assert Fields(e)[DateField] == DateText(input.date.value);
  }

  /** Without a handle the category stays, and an input with no truthy field
      leaves the expense as it was. */
  lemma EmptyUpdateChangesNothing(rows: seq<Expense>, cats: seq<Category>, userId: string, expenseId: string, input: UpdateExpenseInput)
    requires !ExpenseRepository.HasText(input.categoryHandle)
    requires !ExpenseRepository.IntTruthy(input.amount) && !ExpenseRepository.HasText(input.currency)
    requires !ExpenseRepository.HasText(input.description) && input.date.None?
    requires ExpenseRepository.GetExpense(rows, userId, expenseId).Some?
    ensures UpdateExpense(rows, cats, userId, expenseId, input).Success?
    ensures UpdateExpense(rows, cats, userId, expenseId, input).value.1 == ExpenseRepository.GetExpense(rows, userId, expenseId).value
  {
    var before := ExpenseRepository.GetExpense(rows, userId, expenseId).value;
    var e := UpdateExpense(rows, cats, userId, expenseId, input).value.1;
    CommonService.UpdateWithNothingTruthy(InputFields(input), Fields(before), FieldTruthy);
    assert Fields(e) == Fields(before);
    assert Fields(e)[AmountField] == Fields(before)[AmountField];
    assert Fields(e)[CurrencyField] == Fields(before)[CurrencyField];
    assert Fields(e)[DescriptionField] == Fields(before)[DescriptionField];
    assert Fields(e)[DateField] == Fields(before)[DateField];
  }

  // ---------------------------------------------------------------------------
  // deleteExpense and getSingleExpense

  /** `deleteExpense`: the caller's expense is removed; a missing one makes the
      removal call on an undefined value, a `TypeError`. The source calls
      `softRemove`, but the entity declares no delete-date column, so a delete
      is modelled as removal. */
  function DeleteExpense(rows: seq<Expense>, userId: string, expenseId: string): (r: Result<seq<Expense>>)
    ensures r.Failure? <==> ExpenseRepository.GetExpense(rows, userId, expenseId).None?
    ensures r.Failure? ==> r.error == TypeError
    ensures r.Success? ==>
              var e := ExpenseRepository.GetExpense(rows, userId, expenseId).value;
              e.owner == userId && multiset(r.value) + multiset{e} == multiset(rows)
  {
    match Sequences.FindFirst(rows, (e: Expense) => e.id == expenseId && e.owner == userId)
    case None => Failure(TypeError)
    case Some(i) =>
      assert rows == rows[..i] + [rows[i]] + rows[i + 1..];
      Success(rows[..i] + rows[i + 1..])
  }

  /** `getSingleExpense`: the caller's expense with the id, if any; another
      user's expense is never returned. */
  function GetSingleExpense(rows: seq<Expense>, userId: string, expenseId: string): (r: Option<Expense>)
    ensures r.Some? ==> r.value in rows && r.value.id == expenseId && r.value.owner == userId
    ensures r.None? <==> forall e :: e in rows ==> !(e.id == expenseId && e.owner == userId)
  {
    ExpenseRepository.GetExpense(rows, userId, expenseId)
  }
}
