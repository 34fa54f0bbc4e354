/** The search request of the expense listing and the checks its validator
    applies before the request reaches the service
    (src/expenses/inputs/search-expense.input.ts). */
module SearchExpenseInput {
  import opened Results
  import Calendar
  import Text
  import Base64

  /** `DateTypeEnum`: which bucket of the reference date a search selects. */
  datatype DateType = Day | Week | Month | Year

  /** The sortable columns of `ExpensesOrderEnum`. */
  datatype OrderField = CreatedAt | Amount

  /** The second half of an order value; every value other than `ASC` sorts
      descending. */
  datatype Direction = Asc | Desc

  datatype Order = Order(field: OrderField, direction: Direction)

  /** `SearchExpenseInput`. `date` is the parsed date string, `after` the opaque
      cursor as the client sent it. */
  datatype SearchInput = SearchInput(
    date: Option<Calendar.Date>,
    dateType: DateType,
    description: Option<string>,
    amount: Option<int>,
    first: int,
    after: Option<string>,
    order: Order)

  /** The class `[\p{L}0-9_\-.,!\?;:"\s']` of the description field. */
  predicate DescriptionChar(c: char) {
    Text.IsLetter(c) || Text.IsDigit(c) || c in "_-.,!?;:\"'" || Text.IsSpace(c)
  }

  const MaxFirst := 10000
  const MaxDescription := 155

  /** What the validator lets through: a real calendar date, a description of 1
      to 155 characters of the class, a positive amount, `first` from 1 to 10000
      and a base64 cursor. */
  predicate IsValid(s: SearchInput) {
    && (s.date.Some? ==> Calendar.IsValid(s.date.value))
    && (s.description.Some? ==>
          1 <= |s.description.value| <= MaxDescription && Text.AllIn(s.description.value, DescriptionChar))
    && (s.amount.Some? ==> s.amount.value >= 1)
    && 1 <= s.first <= MaxFirst
    && (s.after.Some? ==> Base64.IsBase64(s.after.value))
  }

  /** The request GraphQL builds when the client sends none of the fields: the
      declared defaults, which the validator accepts. */
  function DefaultSearch(): (s: SearchInput)
    ensures IsValid(s)
    ensures s.date.None? && s.description.None? && s.amount.None? && s.after.None?
  {
    SearchInput(None, Day, None, None, 10, None, Order(CreatedAt, Desc))
  }

  /** A valid description holds neither `%` nor `\`, so inside a LIKE pattern
      its only wildcard is `_`. */
  lemma ValidDescriptionHasNoEscapes(s: SearchInput)
    requires IsValid(s) && s.description.Some?
    ensures '%' !in s.description.value && '\\' !in s.description.value
    ensures s.description.value != ""
  {
  }
}
