/**
 * The library database and the state-changing request handlers: the POST
 * branches of `add_member`, `add_book`, `borrow_book` and `return_book`.
 *
 * Each handler is one atomic step on the three tables and their
 * AUTOINCREMENT counters. `Valid()` is what the tables keep between
 * requests: ids are unique, increasing and never handed out twice, every
 * loan names a book that exists, and every loan's return date is exactly
 * LOAN_DAYS days after its borrow date.
 */
module Library {
  import opened Wrappers
  import opened Dates
  import opened Tables

  const INVALID_BOOK_ID_MESSAGE := "Invalid Book ID. Please enter a valid Book ID."
  const INVALID_BORROWER_ID_MESSAGE := "Invalid Borrower ID. Please enter a valid Borrower ID."

  /**
   * What a POST handler answers: a redirect to a listing page, the
   * submitting form rendered again with an error message, or an exception
   * the handler does not catch.
   */
  datatype Response = Redirect(location: string) | FormError(message: string) | ServerError

  /**
   * What the tables keep between requests: each id column is valid for its
   * counter, every loan names an existing book (books are never deleted, and
   * a loan is only inserted after its book id was found), and every loan's
   * two dates are well-formed and LOAN_DAYS apart.
   */
  ghost predicate Consistent(books: seq<Book>, members: seq<Member>, borrowers: seq<Loan>,
                             nextBookId: int, nextMemberId: int, nextLoanId: int)
  {
    && IdColumnValid(BookIds(books), nextBookId)
    && IdColumnValid(MemberIds(members), nextMemberId)
    && IdColumnValid(LoanIds(borrowers), nextLoanId)
    && (forall l :: l in borrowers ==> l.bookId in BookIds(books))
    && (forall l :: l in borrowers ==> DueInFourteenDays(l))
  }

  /** Appending a loan with the counter's id, a known book and consistent dates keeps the tables consistent. */
  lemma LoanKeepsConsistent(books: seq<Book>, members: seq<Member>, borrowers: seq<Loan>,
                            nextBookId: int, nextMemberId: int, nextLoanId: int, loan: Loan)
    requires Consistent(books, members, borrowers, nextBookId, nextMemberId, nextLoanId)
    requires loan.id == nextLoanId && loan.bookId in BookIds(books) && DueInFourteenDays(loan)
    ensures Consistent(books, members, borrowers + [loan], nextBookId, nextMemberId, nextLoanId + 1)
  {
    IssueId(LoanIds(borrowers), nextLoanId);
    assert LoanIds(borrowers + [loan]) == LoanIds(borrowers) + [loan.id];
  }

  /** Removing any one loan keeps the tables consistent, with the loan counter untouched. */
  lemma RemovalKeepsConsistent(books: seq<Book>, members: seq<Member>, borrowers: seq<Loan>,
                               nextBookId: int, nextMemberId: int, nextLoanId: int, k: nat)
    requires Consistent(books, members, borrowers, nextBookId, nextMemberId, nextLoanId)
    requires k < |borrowers|
    ensures Consistent(books, members, borrowers[..k] + borrowers[k + 1..], nextBookId, nextMemberId, nextLoanId)
  {
    var ids := LoanIds(borrowers);
    DropRow(ids, nextLoanId, k);
    assert LoanIds(borrowers[..k] + borrowers[k + 1..]) == ids[..k] + ids[k + 1..];
    forall l | l in borrowers[..k] + borrowers[k + 1..]
      ensures l in borrowers
    {
      var j :| 0 <= j < |borrowers[..k] + borrowers[k + 1..]| && (borrowers[..k] + borrowers[k + 1..])[j] == l;
      assert l == borrowers[if j < k then j else j + 1];
    }
  }

  /** How one new loan on the book at `i` changes every loan count and the listing. */
  lemma BorrowEffects(books: seq<Book>, members: seq<Member>, borrowers: seq<Loan>, loan: Loan, i: nat)
    requires Increasing(BookIds(books)) && i < |books| && books[i].id == loan.bookId
    ensures forall b :: CountLoansOf(borrowers + [loan], b)
                        == CountLoansOf(borrowers, b) + (if b == loan.bookId then 1 else 0)
    ensures BorrowedListing(books, borrowers + [loan], members)
         == BorrowedListing(books, borrowers, members) + multiset(Repeat(LoanLine(books[i], loan), CountNamed(members, loan.name)))
  {
    forall b {
      CountAfterLoan(borrowers, loan, b);
    }
    ListingAfterNewLoan(books, borrowers, loan, members, i);
  }

  /** How removing the loan at `k` changes every loan count and the listing. */
  lemma ReturnEffects(books: seq<Book>, members: seq<Member>, borrowers: seq<Loan>, k: nat)
    requires k < |borrowers|
    ensures forall b :: CountLoansOf(borrowers[..k] + borrowers[k + 1..], b)
                        == CountLoansOf(borrowers, b) - (if borrowers[k].bookId == b then 1 else 0)
    ensures BorrowedListing(books, borrowers[..k] + borrowers[k + 1..], members)
         == BorrowedListing(books, borrowers, members) - multiset(LoanRows(books, borrowers[k], members))
  {
    forall b {
      CountAfterRemoval(borrowers, k, b);
    }
    ListingAfterRemoval(books, borrowers, k, members);
  }

  class Database {
    var books: seq<Book>
    var members: seq<Member>
    var borrowers: seq<Loan>
    /** The AUTOINCREMENT counters: the id the next insert into each table receives. */
    var nextBookId: int
    var nextMemberId: int
    var nextLoanId: int

    ghost predicate Valid()
      reads this
    {
      Consistent(books, members, borrowers, nextBookId, nextMemberId, nextLoanId)
    }

    /** The three tables created empty in a new database file. */
    constructor ()
      ensures Valid()
      ensures books == [] && members == [] && borrowers == []
      ensures nextBookId == 1 && nextMemberId == 1 && nextLoanId == 1
    {
      books, members, borrowers := [], [], [];
      nextBookId, nextMemberId, nextLoanId := 1, 1, 1;
    }

    /** `INSERT INTO members (name, grade)`: no validation, no duplicate check. */
    method AddMember(name: Text, grade: Text) returns (r: Response)
      requires Valid()
      modifies this
      ensures Valid()
      ensures members == old(members) + [Member(old(nextMemberId), name, grade)]
      ensures forall i :: 0 <= i < |old(members)| ==> old(members)[i].id < old(nextMemberId)
      ensures nextMemberId == old(nextMemberId) + 1
      ensures books == old(books) && borrowers == old(borrowers)
      ensures nextBookId == old(nextBookId) && nextLoanId == old(nextLoanId)
      ensures r == Redirect("/members")
    {
      var member := Member(nextMemberId, name, grade);
      IssueId(MemberIds(members), nextMemberId);
      assert MemberIds(members + [member]) == MemberIds(members) + [member.id];
      members := members + [member];
      nextMemberId := nextMemberId + 1;
      r := Redirect("/members");
    }

    /** `INSERT INTO books (title, author, type)`: no validation; the new book is available. */
    method AddBook(title: Text, author: Text, kind: Text) returns (r: Response)
      requires Valid()
      modifies this
      ensures Valid()
      ensures books == old(books) + [Book(old(nextBookId), title, author, kind)]
      ensures forall i :: 0 <= i < |old(books)| ==> old(books)[i].id < old(nextBookId)
      ensures nextBookId == old(nextBookId) + 1
      ensures BookIsAvailable(borrowers, old(nextBookId))
      ensures members == old(members) && borrowers == old(borrowers)
      ensures nextMemberId == old(nextMemberId) && nextLoanId == old(nextLoanId)
      ensures r == Redirect("/books")
    {
      var book := Book(nextBookId, title, author, kind);
      IssueId(BookIds(books), nextBookId);
      assert BookIds(books + [book]) == BookIds(books) + [book.id];
      books := books + [book];
      nextBookId := nextBookId + 1;
      r := Redirect("/books");
    }

    /**
     * `borrow_book`: the due date is computed first (past year 9999 that
     * raises), then the book id is looked up; a known book gets a new loan
     * whether or not it is already on loan.
     */
    method BorrowBook(name: Text, grade: Text, bookId: int, today: Date) returns (r: Response)
      requires Valid() && Representable(today)
      modifies this
      ensures Valid()
      ensures books == old(books) && members == old(members)
      ensures nextBookId == old(nextBookId) && nextMemberId == old(nextMemberId)
      ensures !Representable(AddDays(today, LOAN_DAYS)) ==>
                r == ServerError && borrowers == old(borrowers) && nextLoanId == old(nextLoanId)
      ensures Representable(AddDays(today, LOAN_DAYS)) && bookId !in BookIds(old(books)) ==>
                r == FormError(INVALID_BOOK_ID_MESSAGE) && borrowers == old(borrowers) && nextLoanId == old(nextLoanId)
      ensures Representable(AddDays(today, LOAN_DAYS)) && bookId in BookIds(old(books)) ==>
                && r == Redirect("/borrowed_books")
                && borrowers == old(borrowers) + [NewLoan(old(nextLoanId), name, grade, bookId, today)]
                && nextLoanId == old(nextLoanId) + 1
      ensures r.Redirect? ==>
                && !BookIsAvailable(borrowers, bookId)
                && (forall b :: CountLoansOf(borrowers, b) == CountLoansOf(old(borrowers), b) + (if b == bookId then 1 else 0))
                && match IndexOf(BookIds(books), bookId)
                   case Some(i) =>
                     BorrowedListing(books, borrowers, members)
                     == BorrowedListing(books, old(borrowers), members)
                        + multiset(Repeat(LoanLine(books[i], borrowers[|borrowers| - 1]), CountNamed(members, name)))
                   case None => false
    {
      var due := AddDays(today, LOAN_DAYS);
      if due.year > MAX_YEAR {
        // datetime arithmetic overflows before any query runs
        return ServerError;
      }
      var found := IndexOf(BookIds(books), bookId);
      if found.None? {
        return FormError(INVALID_BOOK_ID_MESSAGE);
      }
      var loan := NewLoan(nextLoanId, name, grade, bookId, today);
      BorrowEffects(books, members, borrowers, loan, found.value);
      InsertLoan(loan);
      r := Redirect("/borrowed_books");
    }

    /**
     * `return_book`: looks the borrower id up and deletes that loan; an
     * unknown id changes nothing.
     */
    method ReturnBook(borrowerId: int) returns (r: Response)
      requires Valid()
      modifies this
      ensures Valid()
      ensures books == old(books) && members == old(members)
      ensures nextBookId == old(nextBookId) && nextMemberId == old(nextMemberId) && nextLoanId == old(nextLoanId)
      ensures match IndexOf(LoanIds(old(borrowers)), borrowerId)
              case None =>
                r == FormError(INVALID_BORROWER_ID_MESSAGE) && borrowers == old(borrowers)
              case Some(k) =>
                && r == Redirect("/borrowed_books")
                && borrowers == old(borrowers)[..k] + old(borrowers)[k + 1..]
                && (forall b :: CountLoansOf(borrowers, b)
                                == CountLoansOf(old(borrowers), b) - (if old(borrowers)[k].bookId == b then 1 else 0))
                && BorrowedListing(books, borrowers, members)
                   == BorrowedListing(books, old(borrowers), members) - multiset(LoanRows(books, old(borrowers)[k], members))
    {
      var found := IndexOf(LoanIds(borrowers), borrowerId);
      if found.None? {
        return FormError(INVALID_BORROWER_ID_MESSAGE);
      }
      ReturnEffects(books, members, borrowers, found.value);
      DeleteLoan(borrowerId, found.value);
      r := Redirect("/borrowed_books");
    }

    /** `INSERT INTO borrowers`: the loan gets the counter's id, which then advances. */
    method InsertLoan(loan: Loan)
      requires Valid()
      requires loan.id == nextLoanId && loan.bookId in BookIds(books) && DueInFourteenDays(loan)
      modifies this
      ensures Valid()
      ensures borrowers == old(borrowers) + [loan] && nextLoanId == old(nextLoanId) + 1
      ensures books == old(books) && members == old(members)
      ensures nextBookId == old(nextBookId) && nextMemberId == old(nextMemberId)
    {
      LoanKeepsConsistent(books, members, borrowers, nextBookId, nextMemberId, nextLoanId, loan);
      borrowers := borrowers + [loan];
      nextLoanId := nextLoanId + 1;
    }

    /** `DELETE FROM borrowers WHERE id = ?` for the id of the loan at `k`: exactly that loan goes. */
    method DeleteLoan(borrowerId: int, k: nat)
      requires Valid()
      requires k < |borrowers| && borrowers[k].id == borrowerId
      modifies this
      ensures Valid()
      ensures borrowers == old(borrowers)[..k] + old(borrowers)[k + 1..]
      ensures books == old(books) && members == old(members)
      ensures nextBookId == old(nextBookId) && nextMemberId == old(nextMemberId) && nextLoanId == old(nextLoanId)
    {
      DeleteUniqueRow(borrowers, k);
      RemovalKeepsConsistent(books, members, borrowers, nextBookId, nextMemberId, nextLoanId, k);
      borrowers := DeleteWhereId(borrowers, borrowerId);
    }
  }

  /**
   * Two borrowers taking the same book one after the other: both loans are
   * accepted, so the book is on loan twice at once.
   */
  method DoubleBorrow(today: Date) returns (first: Response, second: Response, onLoan: nat)
    requires Representable(today) && Representable(AddDays(today, LOAN_DAYS))
    ensures first == Redirect("/borrowed_books") && second == Redirect("/borrowed_books")
    ensures onLoan == 2
  {
    var db := new Database();
    var added := db.AddBook("Title", "Author", "Type");
    assert BookIds(db.books)[0] == 1;
    first := db.BorrowBook("First", "1", 1, today);
    second := db.BorrowBook("Second", "2", 1, today);
    onLoan := CountLoansOf(db.borrowers, 1);
  }
}
