/**
 * The three tables of the library database (books, members, borrowers) as
 * sequences of rows in insertion order, and the read-only queries the
 * request handlers run against them: an id lookup, the availability count,
 * the delete-by-id filter and the borrowed-books join.
 *
 * Every query here is a pure function of the table contents; the class in
 * module Library owns the tables and changes them.
 */
module Tables {
  import opened Wrappers
  import opened Dates
  import opened IsoFormat

  type Text = string

  /** A row of `books`. The `type` column is called `kind` here. */
  datatype Book = Book(id: int, title: Text, author: Text, kind: Text)

  /** A row of `members`. */
  datatype Member = Member(id: int, name: Text, grade: Text)

  /** A row of `borrowers`: one active loan, dates stored as YYYY-MM-DD text. */
  datatype Loan = Loan(id: int, name: Text, grade: Text, bookId: int, borrowDate: Text, returnDate: Text)

  /** A loan runs for this many calendar days. */
  const LOAN_DAYS := 14

  // ---------------------------------------------------------------------------
  // Id columns

  /** The `id` column of a table: each row's id, in row order. */
  function Ids<T>(rows: seq<T>, id: T -> int): (ids: seq<int>)
    ensures |ids| == |rows| && forall i :: 0 <= i < |rows| ==> ids[i] == id(rows[i])
  {
    seq(|rows|, i requires 0 <= i < |rows| => id(rows[i]))
  }

  function BookIds(books: seq<Book>): seq<int> {
    Ids(books, (b: Book) => b.id)
  }

  function MemberIds(members: seq<Member>): seq<int> {
    Ids(members, (m: Member) => m.id)
  }

  function LoanIds(loans: seq<Loan>): seq<int> {
    Ids(loans, (l: Loan) => l.id)
  }

  predicate Increasing(ids: seq<int>) {
    forall i, j :: 0 <= i < j < |ids| ==> ids[i] < ids[j]
  }

  /**
   * An INTEGER PRIMARY KEY AUTOINCREMENT column together with the table's
   * counter: ids are positive, increase in insertion order (so no two rows
   * share one), and lie below the next id the counter hands out.
   */
  predicate IdColumnValid(ids: seq<int>, nextId: int) {
    1 <= nextId && Increasing(ids) && forall i :: 0 <= i < |ids| ==> 1 <= ids[i] < nextId
  }

  /** Inserting a row with the counter's id keeps the column valid for the advanced counter. */
  lemma IssueId(ids: seq<int>, nextId: int)
    requires IdColumnValid(ids, nextId)
    ensures IdColumnValid(ids + [nextId], nextId + 1)
    ensures forall i :: 0 <= i < |ids| ==> ids[i] < nextId
  {
  }

  /** Dropping rows keeps a valid id column valid: a deleted id is never handed out again. */
  lemma DropRow(ids: seq<int>, nextId: int, k: nat)
    requires IdColumnValid(ids, nextId) && k < |ids|
    ensures IdColumnValid(ids[..k] + ids[k + 1..], nextId)
  {
    var rest := ids[..k] + ids[k + 1..];
    forall i, j | 0 <= i < j < |rest|
      ensures rest[i] < rest[j]
    {
      var i' := if i < k then i else i + 1;
      var j' := if j < k then j else j + 1;
      assert rest[i] == ids[i'] && rest[j] == ids[j'];
    }
  }

  /**
   * `SELECT id FROM ... WHERE id = ?` then `fetchone()`: the position of the
   * first row carrying `id`, or nothing when no row does.
   */
  function IndexOf(ids: seq<int>, id: int): (r: Option<nat>)
    ensures r.None? <==> id !in ids
    ensures r.Some? ==> r.value < |ids| && ids[r.value] == id && id !in ids[..r.value]
  {
    if ids == [] then None
    else if ids[0] == id then Some(0)
    else
      match IndexOf(ids[1..], id)
      case None => None
      case Some(k) =>
        assert ids[..k + 1] == [ids[0]] + ids[1..][..k];
        Some(k + 1)
  }

  /** In an increasing id column, the row found for an id is the only row with it. */
  lemma IndexOfUnique(ids: seq<int>, id: int, j: nat)
    requires Increasing(ids) && j < |ids| && ids[j] == id
    ensures IndexOf(ids, id) == Some(j)
  {
  }

  // ---------------------------------------------------------------------------
  // Availability

  /** `SELECT COUNT(id) FROM borrowers WHERE book_id = ?`. */
  function CountLoansOf(loans: seq<Loan>, bookId: int): (c: nat)
    ensures c <= |loans|
    ensures c == 0 <==> forall i :: 0 <= i < |loans| ==> loans[i].bookId != bookId
  {
    if loans == [] then 0
    else (if loans[0].bookId == bookId then 1 else 0) + CountLoansOf(loans[1..], bookId)
  }

  /** `book_is_available`: the count of loans on the book is zero. */
  function BookIsAvailable(loans: seq<Loan>, bookId: int): (r: bool)
    ensures r <==> forall l :: l in loans ==> l.bookId != bookId
  {
    CountLoansOf(loans, bookId) == 0
  }

  lemma {:induction false} CountLoansOfAppend(a: seq<Loan>, b: seq<Loan>, bookId: int)
    ensures CountLoansOf(a + b, bookId) == CountLoansOf(a, bookId) + CountLoansOf(b, bookId)
    decreases |a|
  {
    if a != [] {
      assert (a + b)[1..] == a[1..] + b;
      CountLoansOfAppend(a[1..], b, bookId);
    } else {
      assert a + b == b;
    }
  }

  /** A new loan on a book adds one to the book's count and none to any other book's. */
  lemma CountAfterLoan(loans: seq<Loan>, l: Loan, bookId: int)
    ensures CountLoansOf(loans + [l], bookId)
         == CountLoansOf(loans, bookId) + (if l.bookId == bookId then 1 else 0)
  {
    CountLoansOfAppend(loans, [l], bookId);
  }

  /** Removing the loan at `k` takes one off its own book's count and leaves every other count alone. */
  lemma CountAfterRemoval(loans: seq<Loan>, k: nat, bookId: int)
    requires k < |loans|
    ensures CountLoansOf(loans[..k] + loans[k + 1..], bookId)
         == CountLoansOf(loans, bookId) - (if loans[k].bookId == bookId then 1 else 0)
  {
    assert loans == loans[..k] + ([loans[k]] + loans[k + 1..]);
    CountLoansOfAppend(loans[..k], [loans[k]] + loans[k + 1..], bookId);
    CountLoansOfAppend([loans[k]], loans[k + 1..], bookId);
    CountLoansOfAppend(loans[..k], loans[k + 1..], bookId);
  }

  // ---------------------------------------------------------------------------
  // Deleting a loan

  /** `DELETE FROM borrowers WHERE id = ?`: every row with that id goes, every other row stays, in order. */
  function DeleteWhereId(loans: seq<Loan>, id: int): (r: seq<Loan>)
    ensures |r| <= |loans|
  {
    if loans == [] then []
    else (if loans[0].id == id then [] else [loans[0]]) + DeleteWhereId(loans[1..], id)
  }

  /** The rows left after deleting by `id` are exactly the rows whose id differs. */
  lemma {:induction false} DeleteWhereIdKeeps(loans: seq<Loan>, id: int, l: Loan)
    ensures l in DeleteWhereId(loans, id) <==> l in loans && l.id != id
    decreases |loans|
  {
    if loans != [] {
      DeleteWhereIdKeeps(loans[1..], id, l);
      assert l in loans <==> l == loans[0] || l in loans[1..];
    }
  }

  /** With unique ids, deleting by the id of row `k` removes exactly row `k`. */
  lemma {:induction false} DeleteUniqueRow(loans: seq<Loan>, k: nat)
    requires Increasing(LoanIds(loans)) && k < |loans|
    ensures DeleteWhereId(loans, loans[k].id) == loans[..k] + loans[k + 1..]
    decreases |loans|
  {
    if k == 0 {
      DeleteFirstRow(loans);
    } else {
      IncreasingTail(loans);
      DeleteUniqueRow(loans[1..], k - 1);
      SliceAround(loans, k);
    }
  }

  /** Removing element `k > 0` is keeping the head and removing element `k - 1` of the tail. */
  lemma SliceAround<T>(s: seq<T>, k: nat)
    requires 0 < k < |s|
    ensures s[..k] + s[k + 1..] == [s[0]] + (s[1..][..k - 1] + s[1..][k..])
  {
    assert s[..k] == [s[0]] + s[1..][..k - 1];
    assert s[k + 1..] == s[1..][k..];
  }

  /** Dropping the first row of an increasing id column leaves it increasing, above the first id. */
  lemma IncreasingTail(loans: seq<Loan>)
    requires Increasing(LoanIds(loans)) && 0 < |loans|
    ensures Increasing(LoanIds(loans[1..]))
    ensures forall i :: 0 < i < |loans| ==> loans[0].id < loans[i].id
  {
    var ids := LoanIds(loans);
    assert LoanIds(loans[1..]) == ids[1..];
    forall i | 0 < i < |loans|
      ensures loans[0].id < loans[i].id
    {
      assert ids[0] < ids[i];
    }
  }

  lemma {:induction false} DeleteFirstRow(loans: seq<Loan>)
    requires Increasing(LoanIds(loans)) && 0 < |loans|
    ensures DeleteWhereId(loans, loans[0].id) == loans[1..]
  {
    var ids := LoanIds(loans);
    forall i | 0 <= i < |loans[1..]|
      ensures loans[1..][i].id != loans[0].id
    {
      assert ids[0] < ids[i + 1];
    }
    DeleteAbsent(loans[1..], loans[0].id);
  }

  /** Deleting by an id no row carries changes nothing. */
  lemma {:induction false} DeleteAbsent(loans: seq<Loan>, id: int)
    requires forall i :: 0 <= i < |loans| ==> loans[i].id != id
    ensures DeleteWhereId(loans, id) == loans
    decreases |loans|
  {
    if loans != [] {
      DeleteAbsent(loans[1..], id);
    }
  }

  // ---------------------------------------------------------------------------
  // Loan dates

  /**
   * A loan's two date columns are well-formed YYYY-MM-DD texts and the
   * return date lies exactly LOAN_DAYS calendar days after the borrow date.
   */
  predicate DueInFourteenDays(l: Loan) {
    match (Parse(l.borrowDate), Parse(l.returnDate))
    case (Some(b), Some(r)) => Ordinal(r) == Ordinal(b) + LOAN_DAYS
    case _ => false
  }

  /** The row `borrow_book` inserts for a loan starting `today`. */
  function NewLoan(id: int, name: Text, grade: Text, bookId: int, today: Date): (l: Loan)
    requires Representable(today) && Representable(AddDays(today, LOAN_DAYS))
    ensures l.id == id && l.name == name && l.grade == grade && l.bookId == bookId
    ensures Parse(l.borrowDate) == Some(today)
    ensures Parse(l.returnDate) == Some(AddDays(today, LOAN_DAYS))
    ensures DueInFourteenDays(l)
  {
    var due := AddDays(today, LOAN_DAYS);
    ParseFormat(today);
    ParseFormat(due);
    OrdinalAddDays(today, LOAN_DAYS);
    Loan(id, name, grade, bookId, Format(today), Format(due))
  }

  // ---------------------------------------------------------------------------
  // The borrowed-books listing

  /** One line of the borrowed-books page. */
  datatype ListingRow = ListingRow(title: Text, author: Text, borrowerName: Text, borrowDate: Text, returnDate: Text)

  /** The columns the listing selects from a joined (book, loan, member) triple. */
  function RowOf(b: Book, l: Loan, m: Member): (r: ListingRow)
    ensures l.name == m.name ==> r == LoanLine(b, l)
  {
    ListingRow(b.title, b.author, m.name, l.borrowDate, l.returnDate)
  }

  /** `INNER JOIN members ON borrowers.name = members.name`, for one book and one loan. */
  function MemberMatches(b: Book, l: Loan, members: seq<Member>): (r: seq<ListingRow>)
    ensures |r| <= |members|
  {
    if members == [] then []
    else (if members[0].name == l.name then [RowOf(b, l, members[0])] else [])
         + MemberMatches(b, l, members[1..])
  }

  /** `books INNER JOIN borrowers ON books.id = borrowers.book_id`, for one loan, joined on to members. */
  function LoanRows(books: seq<Book>, l: Loan, members: seq<Member>): (r: seq<ListingRow>)
    ensures |r| <= |books| * |members|
  {
    if books == [] then []
    else
      assert |books| * |members| == |members| + |books[1..]| * |members|;
      (if books[0].id == l.bookId then MemberMatches(books[0], l, members) else [])
      + LoanRows(books[1..], l, members)
  }

  /** The whole three-way inner join, loan by loan: at most one line per (book, loan, member) triple. */
  function Join(books: seq<Book>, loans: seq<Loan>, members: seq<Member>): (r: seq<ListingRow>)
    ensures |r| <= |loans| * (|books| * |members|)
  {
    if loans == [] then []
    else
      assert |loans| * (|books| * |members|) == |books| * |members| + |loans[1..]| * (|books| * |members|);
      LoanRows(books, loans[0], members) + Join(books, loans[1..], members)
  }

  /** `display_borrowed_books`: the join has no ORDER BY, so what it means is the multiset of its rows. */
  function BorrowedListing(books: seq<Book>, loans: seq<Loan>, members: seq<Member>): (r: multiset<ListingRow>)
    ensures |r| <= |loans| * (|books| * |members|)
  {
    multiset(Join(books, loans, members))
  }

  /** The number of members whose name is exactly `name`. */
  function CountNamed(members: seq<Member>, name: Text): nat {
    if members == [] then 0
    else (if members[0].name == name then 1 else 0) + CountNamed(members[1..], name)
  }

  function Repeat<T>(x: T, n: nat): (s: seq<T>)
    ensures |s| == n && forall i :: 0 <= i < n ==> s[i] == x
  {
    seq(n, _ => x)
  }

  /** The triple (books[i], loans[j], members[k]) satisfies both join conditions. */
  predicate Matches(books: seq<Book>, loans: seq<Loan>, members: seq<Member>, i: int, j: int, k: int) {
    0 <= i < |books| && 0 <= j < |loans| && 0 <= k < |members|
    && books[i].id == loans[j].bookId && loans[j].name == members[k].name
  }

  /**
   * The line a loan shows on the listing when joined with book `b`: since the
   * join requires `borrowers.name = members.name`, `borrower_name` is the
   * loan's own name whichever member matched.
   */
  function LoanLine(b: Book, l: Loan): ListingRow {
    ListingRow(b.title, b.author, l.name, l.borrowDate, l.returnDate)
  }

  /** For one book and one loan, the join yields the loan's line once per member sharing its name. */
  lemma {:induction false} MemberMatchesRepeat(b: Book, l: Loan, members: seq<Member>)
    ensures MemberMatches(b, l, members) == Repeat(LoanLine(b, l), CountNamed(members, l.name))
    decreases |members|
  {
    if members != [] {
      MemberMatchesRepeat(b, l, members[1..]);
      var n := CountNamed(members[1..], l.name);
      if members[0].name == l.name {
        assert Repeat(LoanLine(b, l), n + 1) == [LoanLine(b, l)] + Repeat(LoanLine(b, l), n);
      }
    }
  }

  /** A loan whose book id matches no book contributes nothing to the join. */
  lemma {:induction false} LoanRowsAbsent(books: seq<Book>, l: Loan, members: seq<Member>)
    requires forall i :: 0 <= i < |books| ==> books[i].id != l.bookId
    ensures LoanRows(books, l, members) == []
    decreases |books|
  {
    if books != [] {
      LoanRowsAbsent(books[1..], l, members);
    }
  }

  /** With unique book ids, a loan joins with exactly the one book carrying its book id. */
  lemma {:induction false} LoanRowsFound(books: seq<Book>, l: Loan, members: seq<Member>, i: nat)
    requires Increasing(BookIds(books)) && i < |books| && books[i].id == l.bookId
    ensures LoanRows(books, l, members) == MemberMatches(books[i], l, members)
    decreases |books|
  {
    var ids := BookIds(books);
    assert BookIds(books[1..]) == ids[1..];
    if i == 0 {
      forall i' | 0 <= i' < |books[1..]|
        ensures books[1..][i'].id != l.bookId
      {
        assert ids[0] < ids[i' + 1];
      }
      LoanRowsAbsent(books[1..], l, members);
    } else {
      assert ids[0] < ids[i];
      LoanRowsFound(books[1..], l, members, i - 1);
    }
  }

  /**
   * What one loan contributes to the borrowed-books listing, given unique
   * book ids: nothing when its book id names no book, otherwise its line
   * repeated once for every member whose name equals the loan's name
   * (so nothing when no member has that name, k copies when k members do).
   */
  lemma LoanContribution(books: seq<Book>, l: Loan, members: seq<Member>)
    requires Increasing(BookIds(books))
    ensures match IndexOf(BookIds(books), l.bookId)
            case None => LoanRows(books, l, members) == []
            case Some(i) => LoanRows(books, l, members) == Repeat(LoanLine(books[i], l), CountNamed(members, l.name))
  {
    match IndexOf(BookIds(books), l.bookId)
    case None =>
      LoanRowsAbsent(books, l, members);
    case Some(i) =>
      LoanRowsFound(books, l, members, i);
      MemberMatchesRepeat(books[i], l, members);
  }

  lemma {:induction false} JoinAppend(books: seq<Book>, a: seq<Loan>, b: seq<Loan>, members: seq<Member>)
    ensures Join(books, a + b, members) == Join(books, a, members) + Join(books, b, members)
    decreases |a|
  {
    if a == [] {
      assert a + b == b;
    } else {
      assert (a + b)[1..] == a[1..] + b;
      JoinAppend(books, a[1..], b, members);
    }
  }

  /** A loan appended to the borrowers table adds exactly its own rows to the listing. */
  lemma ListingAfterLoan(books: seq<Book>, loans: seq<Loan>, l: Loan, members: seq<Member>)
    ensures BorrowedListing(books, loans + [l], members)
         == BorrowedListing(books, loans, members) + multiset(LoanRows(books, l, members))
  {
    JoinAppend(books, loans, [l], members);
    assert Join(books, [l], members) == LoanRows(books, l, members) + Join(books, [], members);
  }

  /**
   * A new loan on the book at position `i` (ids unique) adds to the listing
   * its line once per member sharing the loan's name, and nothing else.
   */
  lemma ListingAfterNewLoan(books: seq<Book>, loans: seq<Loan>, l: Loan, members: seq<Member>, i: nat)
    requires Increasing(BookIds(books)) && i < |books| && books[i].id == l.bookId
    ensures BorrowedListing(books, loans + [l], members)
         == BorrowedListing(books, loans, members) + multiset(Repeat(LoanLine(books[i], l), CountNamed(members, l.name)))
  {
    ListingAfterLoan(books, loans, l, members);
    LoanRowsFound(books, l, members, i);
    MemberMatchesRepeat(books[i], l, members);
  }

  /** Removing the loan at `j` removes exactly that loan's rows from the listing and no others. */
  lemma ListingAfterRemoval(books: seq<Book>, loans: seq<Loan>, j: nat, members: seq<Member>)
    requires j < |loans|
    ensures BorrowedListing(books, loans[..j] + loans[j + 1..], members)
         == BorrowedListing(books, loans, members) - multiset(LoanRows(books, loans[j], members))
  {
    var before, after := loans[..j], loans[j + 1..];
    assert loans == before + ([loans[j]] + after);
    JoinAppend(books, before, [loans[j]] + after, members);
    JoinAppend(books, [loans[j]], after, members);
    JoinAppend(books, before, after, members);
    assert Join(books, [loans[j]], members) == LoanRows(books, loans[j], members) + Join(books, [], members);
  }

  lemma {:induction false} MemberMatchesMembership(b: Book, l: Loan, members: seq<Member>, r: ListingRow)
    ensures r in MemberMatches(b, l, members)
        <==> exists k :: 0 <= k < |members| && members[k].name == l.name && r == RowOf(b, l, members[k])
    decreases |members|
  {
    if members != [] {
      var tail := members[1..];
      MemberMatchesMembership(b, l, tail, r);
      if r in MemberMatches(b, l, members) && !(members[0].name == l.name && r == RowOf(b, l, members[0])) {
        var k :| 0 <= k < |tail| && tail[k].name == l.name && r == RowOf(b, l, tail[k]);
        assert members[k + 1] == tail[k];
      }
      if exists k :: 0 <= k < |members| && members[k].name == l.name && r == RowOf(b, l, members[k]) {
        var k :| 0 <= k < |members| && members[k].name == l.name && r == RowOf(b, l, members[k]);
        if k > 0 {
          assert tail[k - 1] == members[k];
        }
      }
    }
  }

  lemma {:induction false} LoanRowsMembership(books: seq<Book>, l: Loan, members: seq<Member>, r: ListingRow)
    ensures r in LoanRows(books, l, members)
        <==> exists i, k :: 0 <= i < |books| && 0 <= k < |members| && books[i].id == l.bookId
                            && members[k].name == l.name && r == RowOf(books[i], l, members[k])
    decreases |books|
  {
    if books != [] {
      var tail := books[1..];
      LoanRowsMembership(tail, l, members, r);
      MemberMatchesMembership(books[0], l, members, r);
      if r in LoanRows(books, l, members) {
        if books[0].id == l.bookId && r in MemberMatches(books[0], l, members) {
          var k :| 0 <= k < |members| && members[k].name == l.name && r == RowOf(books[0], l, members[k]);
          assert books[0].id == l.bookId;
        } else {
          var i, k :| 0 <= i < |tail| && 0 <= k < |members| && tail[i].id == l.bookId
                      && members[k].name == l.name && r == RowOf(tail[i], l, members[k]);
          assert books[i + 1] == tail[i];
        }
      }
      if exists i, k :: 0 <= i < |books| && 0 <= k < |members| && books[i].id == l.bookId
                        && members[k].name == l.name && r == RowOf(books[i], l, members[k]) {
        var i, k :| 0 <= i < |books| && 0 <= k < |members| && books[i].id == l.bookId
                    && members[k].name == l.name && r == RowOf(books[i], l, members[k]);
        if i > 0 {
          assert tail[i - 1] == books[i];
        }
      }
    }
  }

  /**
   * The rows of the listing are exactly the projections of the triples
   * (book, loan, member) with `book.id == loan.book_id` and
   * `loan.name == member.name`.
   */
  lemma {:induction false} JoinMembership(books: seq<Book>, loans: seq<Loan>, members: seq<Member>, r: ListingRow)
    ensures r in Join(books, loans, members)
        <==> exists i, j, k :: Matches(books, loans, members, i, j, k) && r == RowOf(books[i], loans[j], members[k])
    decreases |loans|
  {
    if loans != [] {
      var tail := loans[1..];
      JoinMembership(books, tail, members, r);
      LoanRowsMembership(books, loans[0], members, r);
      if r in Join(books, loans, members) {
        if r in LoanRows(books, loans[0], members) {
          var i, k :| 0 <= i < |books| && 0 <= k < |members| && books[i].id == loans[0].bookId
                      && members[k].name == loans[0].name && r == RowOf(books[i], loans[0], members[k]);
          assert Matches(books, loans, members, i, 0, k);
        } else {
          var i, j, k :| Matches(books, tail, members, i, j, k) && r == RowOf(books[i], tail[j], members[k]);
          assert tail[j] == loans[j + 1];
          assert Matches(books, loans, members, i, j + 1, k);
        }
      }
      if exists i, j, k :: Matches(books, loans, members, i, j, k) && r == RowOf(books[i], loans[j], members[k]) {
        var i, j, k :| Matches(books, loans, members, i, j, k) && r == RowOf(books[i], loans[j], members[k]);
        if j > 0 {
          assert tail[j - 1] == loans[j];
          assert Matches(books, tail, members, i, j - 1, k);
        }
      }
    }
  }
}
