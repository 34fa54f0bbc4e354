/** The stored expense record (src/expenses/repository/expense.entity.ts). */
module ExpenseEntity {
  import Calendar

  /** One expense. `owner` and `category` are the ids of the owning user and of
      the category; `createdAt` is the creation instant, in milliseconds since
      the epoch; `week`, `month` (0-based) and `year` are the time buckets derived
      from `date` when the record is created. `updatedAt` is left out. */
  datatype Expense = Expense(
    id: string,
    owner: string,
    category: string,
    amount: int,
    currency: string,
    description: string,
    date: Calendar.Date,
    week: int,
    month: int,
    year: int,
    createdAt: int)
}
