# Expense tracker core, in Dafny

A model of the logic of a NestJS expense-tracker API (TypeScript, TypeORM,
GraphQL), with its properties proved. It covers three parts:

- **The expense query engine.**
  - At creation, an expense gets the time buckets of its date: the calendar year, the 0-based month and the ISO 8601 week number, as dayjs computes it.
  - A listing builds a where-clause field by field: owner, optional category, date bucket, case-insensitive description substring, fuzzy amount range, and a keyset bound taken from a decoded cursor.
  - It orders by one column in one direction, takes `first` rows and counts every row that matches.
  - The opaque cursor is base64 (section 4 of RFC 4648) over UTF-8 (section 3 of RFC 3629).
  - Two paginators wrap the results: one offset-based, one cursor-based.
  - An update copies only the truthy fields of its input onto the stored expense.
- **Categories.**
  - Names and search terms are lower-cased.
  - A search term must pass a character-class check.
  - A UUID-shaped term is looked up by id and any other term by name, always among the caller's own categories.
  - The name-ordered listing is windowed to rows `(page - 1) * pageSize` onward.
- **Accounts and tokens.**
  - Each account carries `confirmed` and an integer `count`.
  - Refresh, confirmation and reset tokens carry `{id, count}`.
  - A password change, a password reset, an e-mail change and a confirmation each move `count` on by one. This revokes every refresh or confirmation token minted from the old count, but not access tokens and not reset tokens.

## Layout

- One module per source file of the core:
  - `ExpenseRepository`, `ExpensesService`, `SearchExpenseInput` and `ExpenseEntity`
  - `CommonService`
  - `CategoryRepository` and `CategoriesService`
  - `UserRepository` and `AuthService`
- Helper modules for the standards and the runtime behaviour the core relies on:
  - `Base64` and `Utf8` for the two encodings.
  - `Calendar` for Gregorian dates and ISO weeks.
  - `Decimal` for `toString` and `parseInt(s, 10)`.
  - `Text` for `toLowerCase`, the regex character classes and `LIKE '%p%'`.
  - `Sequences` for the storage layer's filter, sort, take and skip.
  - `Results` for the exceptions.
- Storage is a sequence of rows. A query is a filter, an insertion sort and a take. A service call is a pure function from the old rows to a `Result` that holds the new rows.
- Each exception is a `Failure` carrying its HTTP class: `BadRequest`, `NotFound`, `Conflict`, `Unauthorized` or `InternalServerError`. A JavaScript `TypeError` thrown by the code is the error `TypeError`.

Where the code leaves the environment, the model takes a parameter instead:
- bcrypt is a `Hasher(hash, check)` pair of functions.
- The text form of a `createdAt` instant, and the parsing of date text by `new Date` and `dayjs`, are an `InstantFormat(show, parse)` pair.
- Ids generated by the database, and creation instants, are arguments.
- A JWT is its kind and its payload. A token verifies only under its own kind. This assumes the four signing secrets (`JWT_ACCESS_SECRET`, `JWT_REFRESH_SECRET`, `JWT_CONFIRMATION_SECRET`, `JWT_RESET_PASSWORD_SECRET`, read in src/config/config.ts) differ.

## Model

| member | source | states |
|---|---|---|
| ExpenseRepository.CreateExpense | src/expenses/repository/expense.repository.ts:22-42 | The record keeps the input's amount, currency, description and date, with the given owner, category, id and creation instant. `year` is the calendar year of the date, not the ISO week-year. `month` is the 0-based month. `week` is the ISO week number, between 1 and 53. |
| ExpenseRepository.CreatedWeekIsIsoWeek | src/expenses/repository/expense.repository.ts:36 | The week bucket meets the ISO 8601 definition. The date lies between the Monday of week 1 of its week-year and the Monday of week 1 of the next. The bucket counts whole weeks from that Monday, starting at 1. |
| ExpenseRepository.CreatedExpenseInOwnBuckets | src/expenses/repository/expense.repository.ts:59-76 | A new record is found by a search on its own date, whatever the date type. |
| ExpenseRepository.WeekBucketUsesCalendarYear | src/expenses/repository/expense.repository.ts:36-38 | The week bucket is paired with the calendar year. 31 December 2024 falls in ISO week 1 of 2025, the same week as 2 January 2025, yet a week search on 2 January 2025 misses it. A week search on 2 January 2024 finds it. |
| ExpenseRepository.BuildFilters | src/expenses/repository/expense.repository.ts:55-89 | Building the where-clause fails exactly when a non-empty cursor gives no value for the sort column. That is an invalid date for `createdAt`, or `NaN` from `parseInt` for `amount`. It fails as a server error. |
| ExpenseRepository.BuildFiltersPerColumn | src/expenses/repository/expense.repository.ts:59-89 | Every column carries exactly the constraint the request calls for. The year always constrains. `DAY`, `WEEK` and `MONTH` add one further column each. A non-empty description adds `ILIKE`. A non-zero amount adds the range. The category adds itself. The keyset bound takes the sort column and replaces whatever was there. |
| ExpenseRepository.FiltersMeanSelected | src/expenses/repository/expense.repository.ts:59-98 | A row satisfies the built filters exactly when `Selected` holds for it. `Selected` is stated condition by condition from the request. |
| ExpenseRepository.ColumnsMeanSelected | src/expenses/repository/expense.repository.ts:59-98 | The per-column constraints hold together exactly when the row is `Selected`. |
| ExpenseRepository.GetExpenses | src/expenses/repository/expense.repository.ts:44-103 | A non-empty cursor that reads neither as a non-zero date nor as a non-zero number is a `BadRequest`, raised before any query. Otherwise every returned row is a stored, selected row, and no row occurs on the page more often than it is stored. The page is sorted by the requested column and direction. It holds `min(first, count)` rows, where `count` is the number of selected rows, keyset bound included and limit not. No selected row left off the page sorts before a row on it. |
| ExpenseRepository.GetExpense | src/expenses/repository/expense.repository.ts:105-115 | The row with the id that belongs to the owner, if one exists. Another owner's row is never returned, and the not-found exception is never raised. |
| ExpenseRepository.AmountRangeExample | src/expenses/repository/expense.repository.ts:79 | The amount range is inclusive. For 1000, the amounts 800, 1199 and 1200 match, and 799 and 1201 do not. |
| ExpenseRepository.AmountBoundReplacesRange | src/expenses/repository/expense.repository.ts:79-88 | With a keyset bound on the amount column, the amount range no longer applies. A row far below the requested amount is selected. |
| ExpenseRepository.NoDateNoBucket | src/expenses/repository/expense.repository.ts:59-76 | Without a date, the date type does not affect the selection. |
| Calendar.IsoWeekStandard | src/expenses/repository/expense.repository.ts:36 | The dayjs week number (from the Thursday of the week and the first Thursday of the year) equals the ISO 8601 week number (whole weeks from the Monday of the week holding 4 January, plus 1). It lies between 1 and 53. |
| Calendar.YearBoundaryWeeks | src/expenses/repository/expense.repository.ts:36 | 31 December 2024 is week 1 of ISO year 2025. 1 January 2021 is week 53 of ISO year 2020. |
| Calendar.EarlyJanuaryWeeks | src/expenses/repository/expense.repository.ts:36 | 2 January 2024 and 2 January 2025 are both in week 1 of their own year. |
| SearchExpenseInput.DefaultSearch | src/expenses/inputs/search-expense.input.ts:20-62 | A request built only from the declared defaults passes the validator. Date, description, amount and cursor are all absent. |
| SearchExpenseInput.ValidDescriptionHasNoEscapes | src/expenses/inputs/search-expense.input.ts:31-39 | A description that passes the validator is non-empty and holds neither `%` nor `\`. So inside the `LIKE` pattern its only wildcard is `_`, which the validator admits. |
| CommonService.BasicPaginate | src/common/common.service.ts:9-21 | Results and total are passed through. `totalPages` is the least number of pages of `pageSize` rows that holds the total. `hasNextPage` holds exactly when `page * pageSize < totalCount`. |
| CommonService.HasNextPageBeforeLastPage | src/common/common.service.ts:15-20 | `hasNextPage` holds exactly when `page < totalPages`. |
| CommonService.OffsetPageExample | src/common/common.service.ts:15-20 | A total of 25 with page 3 of size 10 gives 3 pages and no next page. |
| CommonService.EncodeCursor | src/common/common.service.ts:64-73 | The encoded cursor is valid base64 and decodes back to the value's text. A number's text is its decimal form. |
| CommonService.NumberCursorParses | src/common/common.service.ts:68-73 | A cursor built from a number decodes to its decimal text, and `parseInt` reads that text back as the number. |
| CommonService.CursorPaginate | src/common/common.service.ts:23-42 | There is one edge per instance, in order, whose node is the instance. Its cursor is valid base64 and decodes to the text of the instance's field. The end cursor is the last edge's. `hasNextPage` holds exactly when `totalCount > first`, whatever the cursor position. |
| CommonService.EdgesOf | src/common/common.service.ts:29-32 | One edge per instance, in order, each with the cursor of its own field value. |
| CommonService.UpdateInstance | src/common/common.service.ts:44-54 | Exactly the input keys with a truthy value are assigned. Every other field of the entity keeps its value, and no other key appears. |
| CommonService.UpdateWithNothingTruthy | src/common/common.service.ts:48-52 | An input with no truthy value leaves the entity unchanged. |
| CommonService.ValidateSearchInput | src/common/common.service.ts:56-62 | A search passes exactly when every character is a letter, whitespace or one of `_-.,!?;:"'`. Otherwise it throws a `TypeError`, never a `BadRequest`. |
| CommonService.DigitsRefused | src/common/common.service.ts:56-62 | A search holding a digit is refused with a `TypeError`. |
| Base64.DecodeEncode | src/common/common.service.ts:64-73 | For any bytes, the encoding is valid base64 (section 4 of RFC 4648) and decodes back to the same bytes. |
| Base64.ValueOfCharOf | src/common/common.service.ts:72 | The alphabet maps each 6-bit value to a character and back. |
| Utf8.DecodeEncode | src/common/common.service.ts:64-73 | For any string, decoding its UTF-8 bytes (section 3 of RFC 3629) gives the string back. |
| Utf8.EncodeChar | src/common/common.service.ts:72 | A scalar value takes one to four bytes, and every byte after the first is a continuation byte. |
| Utf8.DecodeFirstEncodeChar | src/common/common.service.ts:65 | The first character decoded from an encoded character, whatever follows it, is that character, and it consumes exactly its own bytes. |
| Decimal.ParseIntToString | src/expenses/repository/expense.repository.ts:87-88 | `parseInt(n.toString(), 10)` is `n` for every integer. |
| Decimal.ParseIntNaN | src/expenses/repository/expense.repository.ts:51 | Text that, after leading whitespace, starts with neither a digit nor a sign is `NaN` to `parseInt`. |
| Text.SubstringMatches | src/expenses/repository/expense.repository.ts:77-78 | A text that contains the term matches `LIKE '%term%'`. |
| Text.LongerPatternNeverMatches | src/expenses/repository/expense.repository.ts:77-78 | A pattern longer than the text never matches. |
| Text.LowerIdempotent | src/categories/repository/category.repository.ts:57 | Lower-casing twice is lower-casing once. |
| CategoryRepository.LookupIndex | src/categories/repository/category.repository.ts:56-77 | The term is lower-cased first. A term with a character outside letters, digits, whitespace and `_-.'` is a `BadRequest`. Otherwise the result is one of the owner's categories that answers to the term. A UUID-shaped term is matched by id, anything else by name. When no category answers, the result is `NotFound`. |
| CategoryRepository.GetCategory | src/categories/repository/category.repository.ts:56-77 | The category found belongs to the owner. Its id is the lower-cased term when the term is UUID-shaped, and its name otherwise. Errors are as for the lookup. |
| CategoryRepository.UuidShapedNameNotFoundByName | src/categories/repository/category.repository.ts:63-64 | A UUID-shaped term is never looked up by name. Without a category of that id, the answer is `NotFound`. |
| CategoryRepository.CreateCategory | src/categories/repository/category.repository.ts:15-34 | The name is stored lower-cased. A clash with an existing id, or with the owner's existing name, is a `Conflict`. Otherwise the category is appended. |
| CategoryRepository.UpdateCategory | src/categories/repository/category.repository.ts:36-54 | Only the name of the resolved category changes. A name another of the owner's categories holds is a `Conflict`. Lookup errors pass through. |
| CategoryRepository.CreateKeepsUnique | src/categories/repository/category.repository.ts:24-31 | Creation keeps ids unique, and names unique per owner. |
| CategoryRepository.UpdateKeepsUnique | src/categories/repository/category.repository.ts:44-51 | Renaming keeps ids unique, and names unique per owner. |
| CategoryRepository.Listing | src/categories/repository/category.repository.ts:101-108 | The listing holds exactly the owner's categories whose name contains the lower-cased search, or all of them when the search is absent or empty. Each occurs as often as it is stored, so the listing's size is the number of such categories. It is sorted by name. |
| CategoryRepository.QueryCategories | src/categories/repository/category.repository.ts:95-116 | The page is the slice of the listing from row `(page - 1) * pageSize`, at most `pageSize` rows, empty past the end. The count is the size of the whole listing. |
| CategoryRepository.PageRowsAreListed | src/categories/repository/category.repository.ts:101-113 | Every row of a page is one of the owner's categories and satisfies the search. |
| CategoriesService.CreateCategory | src/categories/categories.service.ts:22-32 | An unknown caller is `NotFound`. A name clash is `Conflict`. Otherwise the lower-cased category is created for the caller. |
| CategoriesService.UpdateCategory | src/categories/categories.service.ts:34-45 | The resolved category takes the new name lower-cased. The conflict and lookup errors are the repository's. |
| CategoriesService.UpdateIgnoresCase | src/categories/categories.service.ts:39-43 | Renaming gives the same result whatever case the new name is typed in. |
| CategoriesService.UpdateKeepsUnique | src/categories/categories.service.ts:34-45 | Renaming keeps names unique per owner. |
| CategoriesService.DeleteCategory | src/categories/categories.service.ts:47-55 | The target is resolved by the same rules as `getCategory`: by UUID or name, and only among the owner's categories. Exactly that category leaves the store. |
| CategoriesService.GetCategory | src/categories/categories.service.ts:57-60 | The result is a stored category of the owner that answers to the lower-cased term. It fails exactly when the lookup fails. |
| CategoriesService.GetCategories | src/categories/categories.service.ts:62-80 | A non-empty search outside the class is a `TypeError`, raised before any query. Otherwise the results are the requested window of the listing, and the total is the listing's size. `hasNextPage` holds exactly when `page * pageSize` is below that total. The pages counted cover it. |
| CategoriesService.HasNextPageMeansMoreRows | src/categories/categories.service.ts:68-78 | The listing's `hasNextPage` holds exactly when the next page has rows. |
| CategoriesService.DigitSearchRefused | src/categories/categories.service.ts:67 | A search term with a digit never reaches the query. |
| ExpensesService.CreateExpense | src/expenses/expenses.service.ts:26-41 | An unknown caller is `NotFound`. Otherwise it fails exactly as the category lookup among the caller's own categories fails. On success the record belongs to the caller and to one of the caller's categories. |
| ExpensesService.DecodeAfter | src/expenses/expenses.service.ts:90-92 | The cursor is decoded only when it is present and non-empty. Otherwise no bound is passed. |
| ExpensesService.Connect | src/expenses/expenses.service.ts:95-100 | Every cursor of the connection decodes to its row's creation instant as text. |
| ExpensesService.GetExpenses | src/expenses/expenses.service.ts:82-103 | The repository's errors pass through. An empty page is a `TypeError`, because the paginator reads a missing last edge. Otherwise the result is the cursor connection of the page, and every cursor carries the row's creation instant, whatever the order field. The end cursor is the last edge's. |
| ExpensesService.NoCursorNoBound | src/expenses/expenses.service.ts:87-100 | Without a cursor, every row is selected with no keyset bound. The total is the number of such rows, and `hasNextPage` says whether there are more than `first`, the same `first` the repository takes. |
| ExpensesService.FollowEndCursor | src/expenses/expenses.service.ts:87-100 | A request that follows a page's end cursor passes the validator. Its cursor decodes to the last row's creation instant as text. The bound it puts on the sort column is that text read for the sort column. |
| ExpensesService.RowsBeyondBound | src/expenses/expenses.service.ts:87-94 | Every row of a page lies strictly beyond the bound of the request's cursor, in the order's direction. |
| ExpensesService.NextPageIsOlder | src/expenses/expenses.service.ts:87-100 | Newest first by creation time, the next page holds only rows created strictly before the instant `b` that the last row's text reads back as. |
| ExpensesService.NextPageOlderThanLastRow | src/expenses/expenses.service.ts:87-100 | When that instant `b` is no later than the last row's own instant, the next page holds only rows created strictly before the last row of the current page. |
| ExpensesService.AmountOrderCursorIsCreationTime | src/expenses/expenses.service.ts:95-100 | In amount order the cursor still carries the creation instant. The next request bounds the amount by the number the instant's text begins with, not by the last row's amount. |
| ExpensesService.CopyFields | src/expenses/expenses.service.ts:57 | The copyable fields change as `updateInstance` changes them. Id, owner, category, creation instant and the three time buckets stay as they were. |
| ExpensesService.ResolveHandle | src/expenses/expenses.service.ts:51-55 | A handle is resolved only when it is truthy, among the caller's own categories. Lookup errors pass through. |
| ExpensesService.UpdateExpense | src/expenses/expenses.service.ts:43-59 | The handle is resolved first, so its errors come first. A missing expense is then a `TypeError`. On success, only the caller's expense changes in place. Its category is the resolved one, or the old one without a handle. Its truthy fields are copied. Its buckets and creation instant stay the same. |
| ExpensesService.StaleBuckets | src/expenses/expenses.service.ts:57 | Moving an expense's date into another year leaves it out of every search on its new date. |
| ExpensesService.EmptyUpdateChangesNothing | src/expenses/expenses.service.ts:49-57 | An update with no handle and no truthy field leaves the expense as it was. |
| ExpensesService.DeleteExpense | src/expenses/expenses.service.ts:61-72 | A missing expense is a `TypeError`. Otherwise exactly the caller's expense leaves the store. |
| ExpensesService.GetSingleExpense | src/expenses/expenses.service.ts:74-80 | The caller's expense with the id, if any. Another user's expense is never returned. |
| UserRepository.EmailExample | src/auth/repository/user.repository.ts:168-171 | A usual address passes the e-mail check. |
| UserRepository.NoAtSignIsUsername | src/auth/repository/user.repository.ts:168-171 | An input without `@` is never taken for an address. |
| UserRepository.FindUser | src/auth/repository/user.repository.ts:159-166 | An unknown id is `NotFound`. When a password is given and does not check against the stored hash, the result is `BadRequest`. Otherwise the account is found. |
| UserRepository.GetUserById | src/auth/repository/user.repository.ts:136-140 | The account with the id, or `NotFound` when there is none. |
| UserRepository.GetUserByPayload | src/auth/repository/user.repository.ts:142-149 | A payload names an account only while both its id and its count equal the stored ones. Otherwise the result is `Unauthorized`. |
| UserRepository.GetUserByEmail | src/auth/repository/user.repository.ts:151-157 | A malformed address is a `BadRequest`, raised before any lookup. A well-formed address that no account holds is `NotFound`. |
| UserRepository.CreateUser | src/auth/repository/user.repository.ts:20-47 | Differing passwords are a `BadRequest`, raised before anything is stored. A taken id, username or address is a `Conflict`. Otherwise the account is stored with the username and address lower-cased, the hash of the password, unconfirmed and with count 0. It is returned with the hash blanked. |
| UserRepository.DesignatedIndex | src/auth/repository/user.repository.ts:52-56 | The first account the login input designates: by address when the input has the shape of one, by username otherwise, compared as typed. |
| UserRepository.LoginUser | src/auth/repository/user.repository.ts:49-66 | An unknown account and a wrong password both give `Unauthorized`. For the first designated account, login succeeds exactly when the password checks. The account comes back with the hash blanked. |
| UserRepository.ChangePassword | src/auth/repository/user.repository.ts:68-84 | The old password is checked before the two new ones are compared, and either failure is a `BadRequest`. On success only this account changes: it gets the new hash and its count moves on by exactly one. It is returned with the hash blanked. |
| UserRepository.ResetPassword | src/auth/repository/user.repository.ts:86-100 | No old password is asked for. Differing passwords are a `BadRequest`. Otherwise only this account changes: it gets the new hash and its count moves on by exactly one. |
| UserRepository.ChangeEmail | src/auth/repository/user.repository.ts:102-120 | A wrong password is a `BadRequest`. An address another account holds is a `Conflict`. Otherwise only this account changes: the address is stored as given and the count moves on by exactly one. |
| UserRepository.ConfirmAccount | src/auth/repository/user.repository.ts:122-129 | The payload must name the account with its current count, or the result is `Unauthorized`. The account becomes confirmed, its count moves on by exactly one, and nothing else changes. |
| UserRepository.DeleteUser | src/auth/repository/user.repository.ts:131-134 | With the right password exactly this account is removed. A wrong one is a `BadRequest`. |
| UserRepository.CreateKeepsUnique | src/auth/repository/user.repository.ts:30-39 | Registration keeps ids, usernames and addresses unique. |
| UserRepository.TransitionsKeepUnique | src/auth/repository/user.repository.ts:68-129 | A password change, a reset, an e-mail change and a confirmation each keep ids, usernames and addresses unique. |
| UserRepository.DeleteKeepsUnique | src/auth/repository/user.repository.ts:131-134 | Deletion keeps ids, usernames and addresses unique. |
| UserRepository.NewPasswordChecks | src/auth/repository/user.repository.ts:68-100 | After a password change or reset, the new password passes the password gate, given a hasher whose check accepts a password against its own hash. |
| AuthService.Verify | src/auth/auth.service.ts:186-208 | A token verifies only as the kind it was signed as, and yields its id and count. Anything else is `Unauthorized`. |
| AuthService.AuthFor | src/auth/auth.service.ts:210-218 | The access token carries the id only. The refresh token verifies as a refresh token carrying the account's id and current count. |
| AuthService.RegisterUser | src/auth/auth.service.ts:32-50 | Registration fails as account creation fails. Otherwise it mints a confirmation token carrying the new id and count 0. |
| AuthService.LoginUser | src/auth/auth.service.ts:52-76 | An unconfirmed account is `Unauthorized` and gets no tokens. A confirmed one gets tokens minted from its current count. |
| AuthService.RefreshAccessToken | src/auth/auth.service.ts:78-83 | A new access token is issued exactly for a refresh token whose id and count some account currently holds. |
| AuthService.ConfirmAccount | src/auth/auth.service.ts:85-94 | It succeeds exactly for a confirmation token with an account's current id and count. The account is confirmed, and the new tokens carry the moved-on count. |
| AuthService.SendResetEmail | src/auth/auth.service.ts:96-112 | The reset token carries the id and the current count of the account with the address. Address errors pass through. |
| AuthService.ResetPassword | src/auth/auth.service.ts:114-125 | Anything but a reset token is `Unauthorized`. A reset token resets the password of the account with the token's id, whatever count the token carries. |
| AuthService.DeleteAccount | src/auth/auth.service.ts:127-133 | With the right password exactly the account leaves the store. The errors are the password gate's. |
| AuthService.ChangePassword | src/auth/auth.service.ts:135-149 | The new tokens are minted from the count after the change, which is the old count plus one. |
| AuthService.ChangeEmail | src/auth/auth.service.ts:151-162 | The new tokens are minted from the count after the change, which is the old count plus one. |
| AuthService.GetUserById | src/auth/auth.service.ts:164-167 | The account with the id, or `NotFound`. |
| AuthService.BumpRevokesRefresh | src/auth/auth.service.ts:78-83 | Once an account's count has moved on, a refresh token minted from the old count is refused. |
| AuthService.ChangePasswordRevokes | src/auth/auth.service.ts:135-149 | A password change revokes earlier refresh tokens, and the refresh token it hands out is accepted. |
| AuthService.ResetPasswordRevokes | src/auth/auth.service.ts:114-125 | A password reset revokes earlier refresh tokens. |
| AuthService.ChangeEmailRevokes | src/auth/auth.service.ts:151-162 | An e-mail change revokes earlier refresh tokens, and the refresh token it hands out is accepted. |
| AuthService.ConfirmationSingleUse | src/auth/auth.service.ts:85-94 | A confirmation token works once. Used again it is refused, and so is a refresh token from the old count. The new refresh token is accepted. |
| AuthService.ResetTokenReusable | src/auth/auth.service.ts:114-125 | A reset token is not revoked by the reset it performs, and works again. |
| AuthService.ResetIgnoresCount | src/auth/auth.service.ts:118-119 | The count a reset token carries plays no part. |
| AuthService.AccessTokensNotRevocable | src/auth/auth.service.ts:78-94 | An access token is refused by the refresh, confirm and reset flows. |
| AuthService.KindsDoNotMix | src/auth/auth.service.ts:186-190 | A token of one kind is refused by the flows of the other two kinds. |
| AuthService.LoginNeedsConfirmation | src/auth/auth.service.ts:52-76 | Logging in by username with the right password: an unconfirmed account is refused, and a confirmed one gets a refresh token that is accepted. |

## Behaviour of the code worth knowing

- **Total count.** The total of a cursor page is counted with the page's own where-clause (`findAndCount`), keyset bound included.
- **Cursor field.** The service always builds cursors from `createdAt`, whatever the order field. So in amount order the next request compares amounts against the number `parseInt` finds at the start of the instant's text. This is stated as `ExpensesService.AmountOrderCursorIsCreationTime`.
- **Empty page.** For an empty page, `cursorPaginate` reads `edges[-1].cursor` and throws. The model gives `TypeError`.
- **Search validation.** `validateSearchInput` calls a method on the result of `match`, which is `null` on a mismatch. So a refused category search is a `TypeError`, not a `BadRequest`.

## Left out

- **Date text.** The text form of an instant and the parsing of a date string (`new Date(s)`, `dayjs(s)`) depend on the database driver, the time zone and the engine. They are the parameters `show` and `parse`. The model does not tie them to each other or to any calendar.
- **Calendar dates.** A calendar date is a (year, month, day) triple, checked for validity. The `IsDateString` parsing of the client's text is not modelled.
- **Postgres date matching.** The exact-day filter compares dates. Postgres's reading of the `DD-MM-YYYY` text it is given (`DateStyle`) is not modelled.
- **Collation.** `LIKE`/`ILIKE` are plain code-point matching. The category listing's name order (`CategoryRepository.ByName`) is code-point order, not the database collation.
- **`%` and `\` in a category search.** They are not treated as wildcards or escapes. The expense description validator already refuses both; see `SearchExpenseInput.ValidDescriptionHasNoEscapes`.
- **Letters and case.** `\p{L}` and `toLowerCase` are modelled only up to U+00FF. Beyond that a character counts as a non-letter and is left unchanged.
- **The amount range.** It is the exact integer form `4a <= 5x <= 6a`. The rounding of `amount * 0.8` and `amount * 1.2` in floating point is not modelled.
- **Malformed UTF-8 in a cursor.** Node's `Buffer` replaces such bytes with U+FFFD. The model reports `BadRequest` instead, because a cursor the server minted is always well-formed.
- **Strings.** Dafny strings hold Unicode scalar values only. A JavaScript string may hold a lone surrogate, which `Buffer.from(s, 'utf-8')` encodes as U+FFFD. So the cursor round trip is stated for strings without lone surrogates, which covers the date and number text cursors are built from.
- **Lenient base64.** Buffer's lenient decoding of malformed base64 is not modelled. The validator admits only well-formed base64.
- ExpenseRepository.GetExpenses: does not state the order of rows that tie on the sort column. The model keeps storage order, and Postgres leaves it unspecified.
- **Tokens.** Expiry, secrets and signature cryptography are not modelled. A token is its kind and payload. The four signing secrets are assumed to differ; if two were equal, tokens of those kinds would verify as each other and `AuthService.KindsDoNotMix` would not hold.
- **bcrypt.** Its salt is not modelled: `hash` is a function.
- **E-mail.** Sending the confirmation and reset e-mails (including the one sent on an unconfirmed login) is I/O and not modelled.
- **`lastLogin`.** The login timestamp is a clock read and not modelled.
- **Persistence details.**
  - The final `save` calls are not modelled, including the unawaited one in `resetPassword`.
  - `softRemove` is left out and a delete is modelled as removal. The entities declare no delete-date column, so the code as written cannot soft-remove.
  - The mapping of database error codes: any unique-constraint clash is a `Conflict`, and other database errors are not modelled.
  - Exception message texts are not modelled. The two `BadRequest`s of `changePassword` differ only in their message.
- **`count` width.** `count` is an unbounded integer. The 32-bit column's overflow is not modelled.
- **Not part of this model:**
  - `getAllExpenses`, `getAllCategories` and `getCategoryById`: plain finds with no logic.
  - The resolvers. The expense resolver never passes a category to `getExpenses`; the model keeps the parameter.
  - The auth input validators' regexes.
- **Enums.** The enum files are not part of this model. `DateTypeEnum` and `ExpensesOrderEnum` are datatypes with the values the code names.
- **The `date` default.** `UpdateExpenseInput`'s `date` has a GraphQL default (the server's start date). The model takes the field as given, absent or present.
- SearchExpenseInput.DefaultSearch: states that the defaults pass the validator and that the optional fields are absent. It does not restate the default values themselves.
