# Library borrowing bookkeeping, modelled in Dafny

The system is a small school-library web application. A SQLite database holds three
tables: `books`, `members` and `borrowers`. A row of `borrowers` is one active loan.
Four form handlers change the tables. `add_book` and `add_member` insert a row.
`borrow_book` looks a book id up and inserts a loan. `return_book` looks a loan id up
and deletes it. Two read-only queries are modelled as well: `book_is_available`
(a loan count equal to zero) and the borrowed-books page (an inner join of books,
loans and members).

The model has five modules:

- `Wrappers`: an `Option` type.
- `Dates`: proleptic Gregorian dates (the calendar of Python's `datetime.date`).
  `AddDays` steps through the calendar. `Ordinal` numbers the days from a closed
  formula, as `date.toordinal` does. The lemmas prove that the two agree and that
  `AddDays(d, n)` is the one valid date `n` days after `d`.
- `IsoFormat`: dates as ISO 8601 extended calendar dates, `YYYY-MM-DD`
  (ISO 8601:2004 section 4.1.2.2), which is what `strftime('%Y-%m-%d')` writes.
  `Parse` and `Format` are inverses on dates in years 1 to 9999.
- `Tables`: the row types, and the queries as pure functions over row sequences.
  The queries are the id lookup, the availability count, `DELETE ... WHERE id = ?`
  and the three-way join. The lemmas say what each query yields and how the
  queries change when a loan is added or removed.
- `Library`: class `Database` holds the three tables and their AUTOINCREMENT
  counters. Its methods are the POST branches of the four handlers. Its invariant
  `Valid()` (module-level `Consistent`) says:
  - ids are positive, increase in insertion order, and stay below the counter, so
    an id is never handed out twice;
  - every loan names an existing book;
  - every loan's two dates are well-formed, and the return date is exactly 14 days
    after the borrow date.

Behaviour kept as the code has it:

- `borrow_book` does not check availability, so a book can be on loan to several
  borrowers at once. `BorrowBook`'s contract and `DoubleBorrow` show this.
- The listing joins loans to members by exact name equality. A loan whose name
  matches no member is left out. A loan whose name matches k members appears k
  times (`LoanContribution`).
- `borrow_book` computes `today + 14 days` before it looks the book up. A due date
  past 9999-12-31 raises Python's `OverflowError`. That is an unhandled exception,
  so the model answers `ServerError` with no table changed.

## Model

| member | source | states |
|---|---|---|
| `Dates.NextDay` | x.py:109 | The day after a valid date is a valid date. Its year is either the same or the next year starting on January 1st. |
| `Dates.AddDays` | x.py:109 | `today + timedelta(days=n)` on the calendar: a valid date, never in an earlier year. |
| `Dates.DaysBeforeYearStep` | x.py:109 | The closed Gregorian formula for days before a year grows by 365 or 366, following the leap-year rule. |
| `Dates.OrdinalNextDay` | x.py:109 | Stepping one calendar day, including month-end and year-end rollover, moves the day number by exactly one. |
| `Dates.OrdinalAddDays` | x.py:109 | Adding n days moves the day number by exactly n. |
| `Dates.OrdinalWithinYear` | x.py:109 | Every date's day number lies between its year's first and last day. |
| `Dates.OrdinalIncreasing` | x.py:109 | Dates in calendar order have strictly increasing day numbers. |
| `Dates.OrdinalInjective` | x.py:109 | Distinct valid dates have distinct day numbers. |
| `Dates.AddDaysCharacterized` | x.py:109 | A valid date equals `AddDays(d, n)` if and only if its day number is `Ordinal(d) + n`. |
| `Dates.DueDateWithinMonth` | x.py:108-109 | 2024-01-01 plus 14 days is 2024-01-15. |
| `Dates.DueDateAcrossLeapDay` | x.py:108-109 | 2024-02-20 plus 14 days is 2024-03-05 (leap February). |
| `Dates.DueDateAcrossCommonFebruary` | x.py:108-109 | 2023-02-20 plus 14 days is 2023-03-06 (common February). |
| `Dates.DueDateAcrossYearEnd` | x.py:108-109 | 2023-12-25 plus 14 days is 2024-01-08 (year rollover). |
| `IsoFormat.Format` | x.py:119 | A date in years 1 to 9999 is written as ten characters: digits, with dashes at positions 4 and 7. |
| `IsoFormat.Parse` | x.py:119 | Reads a `YYYY-MM-DD` text. When it yields a date, that date is valid and is written back as the same text. When it yields nothing, the text has the wrong shape or names no calendar day. |
| `IsoFormat.ParseFormat` | x.py:119 | Writing a date and reading it back gives the same date. |
| `IsoFormat.FormatInjective` | x.py:119 | Distinct dates are written as distinct texts. |
| `Tables.IssueId` | x.py:13-39 | For each of the three AUTOINCREMENT id columns (`books`, `members`, `borrowers`): inserting with the counter's id keeps the id column valid under the advanced counter. The new id is greater than every id already in the table. |
| `Tables.DropRow` | x.py:157 | Removing a row keeps the id column valid under the same counter, so a deleted id is never reissued. |
| `Tables.IndexOf` | x.py:114-115 | The id lookup finds nothing exactly when no row has the id. Otherwise it returns the first position holding the id. |
| `Tables.IndexOfUnique` | x.py:148-149 | With increasing ids, the lookup finds the only row carrying the id. |
| `Tables.CountLoansOf` | x.py:46-47 | The loan count for a book is at most the number of loans. It is zero exactly when no loan references the book. |
| `Tables.BookIsAvailable` | x.py:44-48 | A book is available if and only if no loan row has its `book_id`. |
| `Tables.CountLoansOfAppend` | x.py:46-47 | The count over two concatenated loan lists is the sum of the two counts. |
| `Tables.CountAfterLoan` | x.py:118 | A new loan adds one to its own book's count and leaves every other count unchanged. |
| `Tables.CountAfterRemoval` | x.py:157 | Removing a loan takes one off its own book's count and leaves every other count unchanged. |
| `Tables.DeleteWhereId` | x.py:157 | `DELETE FROM borrowers WHERE id = ?` as a filter over the loan rows; its own contract bounds the result by the input. What it keeps and removes is given by `DeleteWhereIdKeeps`, `DeleteUniqueRow` and `DeleteAbsent`. |
| `Tables.DeleteWhereIdKeeps` | x.py:157 | After `DELETE ... WHERE id = ?`, a row remains if and only if it was there and has a different id. |
| `Tables.DeleteUniqueRow` | x.py:157 | With unique ids, deleting by the id of row k removes exactly row k and keeps the others in order. |
| `Tables.DeleteFirstRow` | x.py:157 | With unique ids, deleting by the first row's id removes only that row. |
| `Tables.DeleteAbsent` | x.py:157 | Deleting by an id that no row has changes nothing. |
| `Tables.NewLoan` | x.py:118-119 | A new loan row carries the given name, grade and book id. Its borrow date reads back as today. Its return date reads back as today plus 14 days, so the two are 14 days apart. |
| `Tables.RowOf` | x.py:133 | The projection `books.title, books.author, members.name, borrowers.borrow_date, borrowers.return_date` of a joined triple. When the member join condition holds, the selected `borrower_name` is the loan's own name (`LoanLine`). |
| `Tables.Join` | x.py:132-137 | The three-way inner join, at most one line per (book, loan, member) triple. Its meaning is given by `JoinMembership` (membership as an if-and-only-if) and `LoanContribution` (each loan's multiplicity). |
| `Tables.BorrowedListing` | x.py:132-138 | The page's rows as a multiset, since the query has no `ORDER BY`; at most one line per triple. Its contents are given by `JoinMembership`, `LoanContribution` and the `ListingAfter...` lemmas. |
| `Tables.MemberMatchesRepeat` | x.py:136 | For one book and one loan, the join on member name yields the loan's line once per member with exactly that name. |
| `Tables.LoanRowsAbsent` | x.py:135 | A loan whose book id matches no book contributes no line. |
| `Tables.LoanRowsFound` | x.py:135 | With unique book ids, a loan joins exactly the one book carrying its book id. |
| `Tables.LoanContribution` | x.py:132-137 | A loan contributes no line if its book is missing. Otherwise its line appears k times, where k is the number of members with its exact name, so none when k is 0. |
| `Tables.JoinAppend` | x.py:132-137 | The join over two concatenated loan lists is the concatenation of the two joins. |
| `Tables.ListingAfterLoan` | x.py:118-137 | Appending a loan adds exactly that loan's lines to the listing multiset. |
| `Tables.ListingAfterNewLoan` | x.py:118-137 | A loan on an existing book adds its line to the listing once per member with the loan's name. |
| `Tables.ListingAfterRemoval` | x.py:132-157 | Removing a loan removes exactly that loan's lines from the listing multiset. |
| `Tables.MemberMatchesMembership` | x.py:136 | A line comes from a book and loan's member join if and only if some member has the loan's exact name and yields that line. |
| `Tables.LoanRowsMembership` | x.py:135-136 | A line comes from a loan if and only if some book and some member satisfy both join conditions with it. |
| `Tables.JoinMembership` | x.py:132-137 | A line is on the borrowed-books page if and only if some (book, loan, member) triple with `book.id == loan.book_id` and `loan.name == member.name` projects to it. |
| `Library.LoanKeepsConsistent` | x.py:117-120 | Appending a loan keeps the invariant. The loan must carry the counter's id, an existing book id and dates 14 days apart. |
| `Library.RemovalKeepsConsistent` | x.py:157-158 | Removing any one loan keeps the invariant with the counters unchanged. |
| `Library.BorrowEffects` | x.py:117-121 | A new loan raises only its own book's count, by one. It adds the loan's line once per member with that name to the listing. |
| `Library.ReturnEffects` | x.py:151-158 | Removing loan k lowers only its book's count, by one. It removes exactly that loan's lines from the listing. |
| `Library.Database.constructor` | x.py:13-42 | A new database has three empty tables, each with its counter at 1. |
| `Library.Database.AddMember` | x.py:69-73 | Appends exactly one member with the given name and grade and an id greater than every earlier id. Books, loans and the other counters are unchanged. Redirects to `/members`. |
| `Library.Database.AddBook` | x.py:93-97 | Appends exactly one book with the given title, author and type and a fresh, greater id. The new book is available. Members, loans and the other counters are unchanged. Redirects to `/books`. |
| `Library.Database.BorrowBook` | x.py:104-124 | See the three cases below this table. |
| `Library.Database.InsertLoan` | x.py:118-120 | The INSERT appends the loan with the counter's id, advances the counter and keeps the invariant. |
| `Library.Database.ReturnBook` | x.py:144-163 | See the two cases below this table. |
| `Library.Database.DeleteLoan` | x.py:157-158 | The DELETE for the id of row k removes exactly row k and keeps the invariant. |
| `Library.DoubleBorrow` | x.py:117-121 | Two borrows of the same book in a row both succeed, leaving the book on loan twice. |

`Library.Database.BorrowBook` has three outcomes:

- The due date is past year 9999: `ServerError`, and nothing changes.
- The book id is unknown: `FormError("Invalid Book ID. Please enter a valid Book ID.")`,
  and nothing changes.
- Otherwise it appends exactly one loan. The loan carries the name, grade and book id,
  the next loan id, today's date and today plus 14 days. This happens even when the
  book is already on loan. Afterwards the book is unavailable, and only its count grows,
  by one. The listing gains the loan's line once per member with that name. Books and
  members are unchanged.

`Library.Database.ReturnBook` has two outcomes:

- The loan id is unknown: `FormError("Invalid Borrower ID. Please enter a valid Borrower ID.")`,
  and nothing changes.
- Otherwise it removes exactly that loan row and no other, then redirects to
  `/borrowed_books`. Only that book's count drops, by one. The listing loses exactly
  that loan's lines. Books, members and the counters are unchanged.

## Left out

- Flask routing, `render_template`, `redirect` and the GET branches. Handlers return a
  `Response` value (redirect target, form error message, or server error) instead of
  rendering HTML.
- `display_books` and `display_members` are plain `SELECT *` queries handed to a
  template. The availability flag the books page shows per book is `BookIsAvailable`.
- The SQLite connection, cursors and `commit()`. The tables are in-memory sequences.
  Each handler is one atomic step.
- The constructor models the first start on a new database file. `CREATE TABLE IF NOT
  EXISTS` on an existing file keeps its rows; that case is not modelled.
- The shared connection opened with `check_same_thread=False`, and any interleaving of
  requests. This is concurrency, so it is out of scope.
- `datetime.datetime.today()` is a clock read. The current date is a parameter, and the
  time of day is dropped because it does not affect the stored dates.
- `strftime('%Y')` for years below 1000. The model writes four zero-padded digits, as
  ISO 8601 requires. The C library's `strftime` may write fewer digits for those years.
- Form parsing (`request.form[...]`, and a missing field answered with HTTP 400).
  SQLite type-affinity coercion of text ids and grades is also left out: ids are
  integers and grades are opaque text.
- Row order of `SELECT *` and of the join, which have no `ORDER BY`. The listing is
  stated as a multiset.
- The second lookup in `return_book`, which fetches the loan's `book_id` and never uses it.
- AUTOINCREMENT exhaustion at the largest 64-bit id, where SQLite reports the table as
  full. Ids are unbounded integers.
- `Tables.DeleteWhereId`: its own contract states only that the result is no longer than
  the input. What it keeps and removes is stated in `DeleteWhereIdKeeps`,
  `DeleteUniqueRow` and `DeleteAbsent`.
