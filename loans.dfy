/** Borrowing and returning books: the `books` and `loans` tables and the three
    request handlers of the loan controller. Each handler runs as one transaction;
    a rollback restores the tables as they were when the transaction began. */
module Loans {
  import opened Base
  import opened Sorting

  /** `dueDate` is set 7 days after the borrow instant. */
  const LoanPeriodMs: int := 7 * MsPerDay
  /** A user may hold at most this many unreturned loans. */
  const MaxActiveLoans: nat := 5

  /** A row of the `books` table; `quantity` is the number of copies on the shelf. */
  datatype Book = Book(title: string, author: string, isbn: string, genre: Option<string>, quantity: int)

  /** A row of the `loans` table. `dueDate` is an instant in milliseconds. */
  datatype Loan = Loan(id: nat, userId: int, bookId: int, dueDate: int, returned: bool)

  /** Both tables, and the next value of the `loans.id` AUTO_INCREMENT counter. */
  datatype LibraryState = LibraryState(books: map<int, Book>, loans: seq<Loan>, nextLoanId: nat)

  /** The four responses of `borrowBook`. */
  datatype BorrowOutcome = Borrowed | LimitReached | NotAvailable | BorrowFailed

  /** The two responses of `returnBook`. */
  datatype ReturnOutcome = ReturnedOk | ReturnFailed

  function BorrowStatus(o: BorrowOutcome): int {
    match o
    case Borrowed => 201
    case LimitReached => 400
    case NotAvailable => 400
    case BorrowFailed => 500
  }

  function ReturnStatus(o: ReturnOutcome): int {
    match o
    case ReturnedOk => 200
    case ReturnFailed => 500
  }

  // ---------------------------------------------------------------- queries over the tables

  predicate IsActive(l: Loan, user: int) {
    l.userId == user && !l.returned
  }

  function ActiveBy(user: int): Loan -> bool {
    l => IsActive(l, user)
  }

  /** `SELECT COUNT(*) FROM loans WHERE user_id = ? AND returned = FALSE`: the number of
      the user's unreturned loans. */
  function ActiveCount(loans: seq<Loan>, user: int): (n: nat)
    ensures n == Count(loans, ActiveBy(user))
    ensures n <= |loans|
    decreases |loans|
  {
    if loans == [] then 0
    else
      var front, last := loans[..|loans| - 1], loans[|loans| - 1];
      assert loans == front + [last];
      CountAppend(front, [last], ActiveBy(user));
      assert [last][1..] == [];
      ActiveCount(front, user) + (if IsActive(last, user) then 1 else 0)
  }

  /** Unreturned loans of one book, by any user. */
  function ActiveForBook(loans: seq<Loan>, book: int): (n: nat)
    ensures n <= |loans|
    decreases |loans|
  {
    if loans == [] then 0
    else
      var l := loans[|loans| - 1];
      ActiveForBook(loans[..|loans| - 1], book) + (if l.bookId == book && !l.returned then 1 else 0)
  }

  /** The first loan whose id is `id` (`SELECT ... FROM loans WHERE id = ?`, row 0). */
  function FindLoan(loans: seq<Loan>, id: int): (r: Option<Loan>)
    ensures r.Some? ==> r.value in loans && r.value.id == id
    ensures r.None? <==> forall i :: 0 <= i < |loans| ==> loans[i].id != id
    decreases |loans|
  {
    if loans == [] then None
    else if loans[0].id == id then Some(loans[0])
    else
      var r := FindLoan(loans[1..], id);
      assert forall i :: 1 <= i < |loans| ==> loans[i] == loans[1..][i - 1];
      r
  }

  /** `UPDATE loans SET returned = TRUE WHERE id = ?`. */
  function MarkReturned(loans: seq<Loan>, id: int): (r: seq<Loan>)
    ensures |r| == |loans|
    ensures forall i :: 0 <= i < |loans| ==>
      r[i] == if loans[i].id == id then loans[i].(returned := true) else loans[i]
  {
    seq(|loans|, i requires 0 <= i < |loans| =>
      if loans[i].id == id then loans[i].(returned := true) else loans[i])
  }

  /** `UPDATE books SET quantity = quantity + 1 WHERE id = ?`: no row, no change. */
  function IncrementQuantity(books: map<int, Book>, id: int): (r: map<int, Book>)
    ensures r.Keys == books.Keys
    ensures forall b :: b in books ==>
      r[b].quantity == books[b].quantity + (if b == id then 1 else 0)
  {
    if id in books then books[id := books[id].(quantity := books[id].quantity + 1)] else books
  }

  /** The row `getUserLoans` reports for one loan, joined with its book. */
  datatype LoanRow = LoanRow(id: nat, title: string, author: string, dueDate: int)

  predicate Listed(l: Loan, books: map<int, Book>, user: int) {
    IsActive(l, user) && l.bookId in books
  }

  function RowOf(l: Loan, books: map<int, Book>): LoanRow
    requires l.bookId in books
  {
    LoanRow(l.id, books[l.bookId].title, books[l.bookId].author, l.dueDate)
  }

  /** `SELECT l.id, b.title, b.author, l.due_date FROM loans l JOIN books b ON l.book_id = b.id
      WHERE l.user_id = ? AND l.returned = FALSE`, in table order. */
  function UserLoans(loans: seq<Loan>, books: map<int, Book>, user: int): seq<LoanRow>
    decreases |loans|
  {
    if loans == [] then []
    else
      var l := loans[|loans| - 1];
      UserLoans(loans[..|loans| - 1], books, user) + (if Listed(l, books, user) then [RowOf(l, books)] else [])
  }

  // ---------------------------------------------------------------- the transactions

  /** The table invariant the handlers keep: no shelf count below zero, and loan ids
      increase along the table and stay below the AUTO_INCREMENT counter. */
  ghost predicate ValidState(st: LibraryState) {
    && (forall b :: b in st.books ==> st.books[b].quantity >= 0)
    && (forall i :: 0 <= i < |st.loans| ==> st.loans[i].id < st.nextLoanId)
    && (forall i, j :: 0 <= i < j < |st.loans| ==> st.loans[i].id < st.loans[j].id)
  }

  /** `borrowBook`: the loan-limit check, then the availability check, then the
      decrement and the insert. An unknown book id makes `book[0].quantity` throw,
      which the handler turns into a rollback and a 500. */
  function Borrow(st: LibraryState, userId: int, bookId: int, now: int): (LibraryState, BorrowOutcome) {
    if ActiveCount(st.loans, userId) >= MaxActiveLoans then (st, LimitReached)
    else if bookId !in st.books then (st, BorrowFailed)
    else if st.books[bookId].quantity < 1 then (st, NotAvailable)
    else
      var b := st.books[bookId];
      (LibraryState(st.books[bookId := b.(quantity := b.quantity - 1)],
                    st.loans + [Loan(st.nextLoanId, userId, bookId, now + LoanPeriodMs, false)],
                    st.nextLoanId + 1),
       Borrowed)
  }

  /** `returnBook`: mark the loan returned, read its book id back, and put the copy
      back on the shelf. There is no check that the loan was still out. A loan id
      that matches no row makes `loan[0].book_id` throw: rollback and 500. */
  function Return(st: LibraryState, loanId: int): (LibraryState, ReturnOutcome) {
    var marked := MarkReturned(st.loans, loanId);
    match FindLoan(marked, loanId)
    case None => (st, ReturnFailed)
    case Some(l) => (st.(loans := marked, books := IncrementQuantity(st.books, l.bookId)), ReturnedOk)
  }

  // ---------------------------------------------------------------- what the transactions keep

  lemma BorrowKeepsValid(st: LibraryState, userId: int, bookId: int, now: int)
    requires ValidState(st)
    ensures ValidState(Borrow(st, userId, bookId, now).0)
  {
  }

  lemma ReturnKeepsValid(st: LibraryState, loanId: int)
    requires ValidState(st)
    ensures ValidState(Return(st, loanId).0)
  {
  }

  // ---------------------------------------------------------------- properties of the handlers

  /** Which response a borrow gets. The loan limit is checked before the book is looked
      at, so a user at the limit is refused even for a book that is out of stock or
      unknown; every refusal leaves both tables as they were. */
  lemma BorrowDecision(st: LibraryState, userId: int, bookId: int, now: int)
    ensures var (st', o) := Borrow(st, userId, bookId, now);
      && (o == LimitReached <==> ActiveCount(st.loans, userId) >= MaxActiveLoans)
      && (o == BorrowFailed <==> ActiveCount(st.loans, userId) < MaxActiveLoans && bookId !in st.books)
      && (o == NotAvailable <==> ActiveCount(st.loans, userId) < MaxActiveLoans && bookId in st.books
                                 && st.books[bookId].quantity < 1)
      && (o == Borrowed <==> ActiveCount(st.loans, userId) < MaxActiveLoans && bookId in st.books
                             && st.books[bookId].quantity >= 1)
      && (o != Borrowed ==> st' == st)
  {
  }

  /** A successful borrow takes exactly one copy of the requested book off the shelf,
      leaves every other book alone, and appends exactly one unreturned loan for
      (user, book) due seven days after the borrow instant; the borrower holds one more
      active loan and nobody else's count moves. */
  lemma BorrowEffect(st: LibraryState, userId: int, bookId: int, now: int)
    requires Borrow(st, userId, bookId, now).1 == Borrowed
    ensures var st' := Borrow(st, userId, bookId, now).0;
      && st'.books.Keys == st.books.Keys
      && st'.books[bookId].quantity == st.books[bookId].quantity - 1 >= 0
      && (forall b :: b in st.books && b != bookId ==> st'.books[b] == st.books[b])
      && st'.loans == st.loans + [Loan(st.nextLoanId, userId, bookId, now + 7 * 24 * 60 * 60 * 1000, false)]
      && ActiveCount(st'.loans, userId) == ActiveCount(st.loans, userId) + 1
      && (forall u :: u != userId ==> ActiveCount(st'.loans, u) == ActiveCount(st.loans, u))
  {
    var st' := Borrow(st, userId, bookId, now).0;
    assert st'.loans[..|st'.loans| - 1] == st.loans;
  }

  predicate IdsIncreasing(loans: seq<Loan>) {
    forall i, j :: 0 <= i < j < |loans| ==> loans[i].id < loans[j].id
  }

  lemma {:induction false} FindLoanSnoc(loans: seq<Loan>, x: Loan, id: int)
    ensures FindLoan(loans + [x], id) ==
      if FindLoan(loans, id).Some? then FindLoan(loans, id) else if x.id == id then Some(x) else None
    decreases |loans|
  {
    if loans != [] {
      assert (loans + [x])[1..] == loans[1..] + [x];
      FindLoanSnoc(loans[1..], x, id);
    }
  }

  lemma MarkReturnedSnoc(loans: seq<Loan>, x: Loan, id: int)
    ensures MarkReturned(loans + [x], id) == MarkReturned(loans, id) + [if x.id == id then x.(returned := true) else x]
  {
  }

  lemma MarkReturnedAbsent(loans: seq<Loan>, id: int)
    requires forall i :: 0 <= i < |loans| ==> loans[i].id != id
    ensures MarkReturned(loans, id) == loans
  {
  }

  /** Borrowing a book and then returning that loan puts the copy back and gives the
      borrower back their loan slot: the shelf counts are as before the borrow, every
      user's active-loan count is as before, and the loan table has grown by one
      returned row. */
  lemma BorrowThenReturn(st: LibraryState, userId: int, bookId: int, now: int)
    requires ValidState(st)
    requires Borrow(st, userId, bookId, now).1 == Borrowed
    ensures var st1 := Borrow(st, userId, bookId, now).0;
      var (st2, o) := Return(st1, st.nextLoanId);
      && o == ReturnedOk
      && st2.books == st.books
      && st2.loans == st.loans + [Loan(st.nextLoanId, userId, bookId, now + LoanPeriodMs, true)]
      && (forall u :: ActiveCount(st2.loans, u) == ActiveCount(st.loans, u))
  {
    var st1 := Borrow(st, userId, bookId, now).0;
    var l := Loan(st.nextLoanId, userId, bookId, now + LoanPeriodMs, false);
    ReturnFreshLoan(st.(books := st1.books), l);
    var b := st.books[bookId];
    assert IncrementQuantity(st.books[bookId := b.(quantity := b.quantity - 1)], bookId) == st.books;
    var done := st.loans + [l.(returned := true)];
    assert done[..|st.loans|] == st.loans;
  }

  /** Returning a loan just appended, whose id no earlier loan has, marks only that row
      and puts one copy of its book back. */
  lemma ReturnFreshLoan(st: LibraryState, l: Loan)
    requires forall i :: 0 <= i < |st.loans| ==> st.loans[i].id < l.id
    ensures Return(st.(loans := st.loans + [l]), l.id)
      == (st.(loans := st.loans + [l.(returned := true)], books := IncrementQuantity(st.books, l.bookId)), ReturnedOk)
  {
    MarkReturnedSnoc(st.loans, l, l.id);
    MarkReturnedAbsent(st.loans, l.id);
    FindLoanSnoc(st.loans, l.(returned := true), l.id);
  }

  /** Borrow and return requests, as a client sends them. */
  datatype Request = BorrowRequest(userId: int, bookId: int, now: int) | ReturnRequest(loanId: int)

  function Apply(st: LibraryState, r: Request): LibraryState {
    match r
    case BorrowRequest(u, b, now) => Borrow(st, u, b, now).0
    case ReturnRequest(id) => Return(st, id).0
  }

  function Run(st: LibraryState, rs: seq<Request>): LibraryState
    decreases |rs|
  {
    if rs == [] then st else Run(Apply(st, rs[0]), rs[1..])
  }

  /** After any sequence of borrows and returns, successful or not, no shelf count is
      negative (given none was to begin with). */
  lemma {:induction false} RunKeepsValid(st: LibraryState, rs: seq<Request>)
    requires ValidState(st)
    ensures ValidState(Run(st, rs))
    ensures forall b :: b in Run(st, rs).books ==> Run(st, rs).books[b].quantity >= 0
    decreases |rs|
  {
    if rs != [] {
      match rs[0] {
        case BorrowRequest(u, b, now) => BorrowKeepsValid(st, u, b, now);
        case ReturnRequest(id) => ReturnKeepsValid(st, id);
      }
      RunKeepsValid(Apply(st, rs[0]), rs[1..]);
    }
  }

  /** The test the query's `WHERE` and inner join apply. */
  function ListedBy(books: map<int, Book>, user: int): Loan -> bool {
    l => Listed(l, books, user)
  }

  /** `getUserLoans` lists exactly the requesting user's unreturned loans whose book
      row exists (the inner join drops the others), one row per loan, in table order,
      each with its book's title and author. */
  lemma {:induction false} UserLoansExactly(loans: seq<Loan>, books: map<int, Book>, user: int)
    ensures forall r :: r in UserLoans(loans, books, user) ==>
      exists i :: 0 <= i < |loans| && Listed(loans[i], books, user) && r == RowOf(loans[i], books)
    ensures forall i :: 0 <= i < |loans| && Listed(loans[i], books, user) ==>
      RowOf(loans[i], books) in UserLoans(loans, books, user)
    ensures var ls := Filter(loans, ListedBy(books, user));
      |UserLoans(loans, books, user)| == |ls|
      && forall i :: 0 <= i < |ls| ==>
           Listed(ls[i], books, user) && UserLoans(loans, books, user)[i] == RowOf(ls[i], books)
    decreases |loans|
  {
    if loans != [] {
      var front := loans[..|loans| - 1];
      UserLoansExactly(front, books, user);
      forall i | 0 <= i < |front| ensures loans[i] == front[i] { }
    }
    UserLoansRows(loans, books, user);
  }

  /** The query's rows are the rows of the filtered loans, one each, in order. */
  lemma {:induction false} UserLoansRows(loans: seq<Loan>, books: map<int, Book>, user: int)
    ensures var ls := Filter(loans, ListedBy(books, user));
      |UserLoans(loans, books, user)| == |ls|
      && forall i :: 0 <= i < |ls| ==>
           Listed(ls[i], books, user) && UserLoans(loans, books, user)[i] == RowOf(ls[i], books)
    decreases |loans|
  {
    if loans != [] {
      var front := loans[..|loans| - 1];
      var l := loans[|loans| - 1];
      UserLoansRows(front, books, user);
      assert loans == front + [l];
      FilterSnoc(front, l, ListedBy(books, user));
      var ls := Filter(front, ListedBy(books, user));
      var rows := UserLoans(front, books, user);
      var ls' := Filter(loans, ListedBy(books, user));
      var rows' := UserLoans(loans, books, user);
      assert rows' == rows + (if Listed(l, books, user) then [RowOf(l, books)] else []);
      forall i | 0 <= i < |ls'| ensures Listed(ls'[i], books, user) && rows'[i] == RowOf(ls'[i], books) {
        if i < |ls| {
          assert ls'[i] == ls[i] && rows'[i] == rows[i];
        }
      }
    }
  }

  // ---------------------------------------------------------------- returning twice

  /** Copies of a book the library owns: those on the shelf plus those out on loan. */
  function Stock(st: LibraryState, book: int): int
    requires book in st.books
  {
    st.books[book].quantity + ActiveForBook(st.loans, book)
  }

  /** One if the loan `returnBook` would find for `id` is an unreturned loan of `book`. */
  function Outstanding(loans: seq<Loan>, id: int, book: int): nat {
    match FindLoan(loans, id)
    case Some(l) => if l.bookId == book && !l.returned then 1 else 0
    case None => 0
  }

  lemma ActiveForBookSnoc(front: seq<Loan>, x: Loan, book: int)
    ensures ActiveForBook(front + [x], book) == ActiveForBook(front, book) + (if x.bookId == book && !x.returned then 1 else 0)
  {
    assert (front + [x])[..|front|] == front;
  }

  lemma IdsIncreasingFront(loans: seq<Loan>)
    requires IdsIncreasing(loans) && loans != []
    ensures IdsIncreasing(loans[..|loans| - 1])
    ensures forall i :: 0 <= i < |loans| - 1 ==> loans[i].id != loans[|loans| - 1].id
  {
  }

  /** Marking a loan returned takes it out of its book's count of loans out, if it was
      out; no other book's count moves. */
  lemma {:induction false} ActiveForBookMarked(loans: seq<Loan>, id: int, book: int)
    requires IdsIncreasing(loans)
    ensures ActiveForBook(MarkReturned(loans, id), book) == ActiveForBook(loans, book) - Outstanding(loans, id, book)
    decreases |loans|
  {
    if loans != [] {
      var front := loans[..|loans| - 1];
      var x := loans[|loans| - 1];
      IdsIncreasingFront(loans);
      if x.id == id {
        MarkedLast(front, x, book);
      } else {
        ActiveForBookMarked(front, id, book);
        MarkedBefore(front, x, id, book);
      }
      assert loans == front + [x];
    }
  }

  /** The step of `ActiveForBookMarked` when the id is the last loan's. */
  lemma MarkedLast(front: seq<Loan>, x: Loan, book: int)
    requires forall i :: 0 <= i < |front| ==> front[i].id != x.id
    ensures ActiveForBook(MarkReturned(front + [x], x.id), book)
      == ActiveForBook(front + [x], book) - Outstanding(front + [x], x.id, book)
  {
    MarkReturnedSnoc(front, x, x.id);
    MarkReturnedAbsent(front, x.id);
    ActiveForBookSnoc(front, x.(returned := true), book);
    ActiveForBookSnoc(front, x, book);
    FindLoanSnoc(front, x, x.id);
  }

  /** The step of `ActiveForBookMarked` when the id is not the last loan's. */
  lemma MarkedBefore(front: seq<Loan>, x: Loan, id: int, book: int)
    requires x.id != id
    requires ActiveForBook(MarkReturned(front, id), book) == ActiveForBook(front, book) - Outstanding(front, id, book)
    ensures ActiveForBook(MarkReturned(front + [x], id), book)
      == ActiveForBook(front + [x], book) - Outstanding(front + [x], id, book)
  {
    MarkReturnedSnoc(front, x, id);
    ActiveForBookSnoc(MarkReturned(front, id), x, book);
    ActiveForBookSnoc(front, x, book);
    FindLoanSnoc(front, x, id);
  }

  /** As written, `returnBook` accepts a loan that was already returned and puts
      another copy on the shelf: the library's stock of that book grows by one. */
  lemma ReturnTwiceInflatesStock(st: LibraryState, loanId: int)
    requires ValidState(st)
    requires FindLoan(st.loans, loanId).Some? && FindLoan(st.loans, loanId).value.returned
    requires FindLoan(st.loans, loanId).value.bookId in st.books
    ensures var (st', o) := Return(st, loanId);
      var book := FindLoan(st.loans, loanId).value.bookId;
      && o == ReturnedOk
      && Stock(st', book) == Stock(st, book) + 1
  {
    var l := FindLoan(st.loans, loanId).value;
    var marked := MarkReturned(st.loans, loanId);
    ActiveForBookMarked(st.loans, loanId, l.bookId);
    FindMarked(st.loans, loanId);
  }

  /** Marking rows returned does not move them: the first row with the id is the same
      row, now returned. */
  lemma {:induction false} FindMarked(loans: seq<Loan>, id: int)
    ensures FindLoan(MarkReturned(loans, id), id) ==
      match FindLoan(loans, id)
      case Some(l) => Some(l.(returned := true))
      case None => None
    decreases |loans|
  {
    if loans != [] {
      assert MarkReturned(loans, id)[1..] == MarkReturned(loans[1..], id);
      FindMarked(loans[1..], id);
    }
  }

  /** The three responses of a return that refuses a loan already returned. */
  datatype ReturnOnceOutcome = Done | NotFound | AlreadyReturned

  /** The return the stock invariant calls for: refuse a loan that is not out. */
  function ReturnOnce(st: LibraryState, loanId: int): (LibraryState, ReturnOnceOutcome) {
    match FindLoan(st.loans, loanId)
    case None => (st, NotFound)
    case Some(l) =>
      if l.returned then (st, AlreadyReturned)
      else (Return(st, loanId).0, Done)
  }

  /** A borrow, successful or not, conserves every book's stock. */
  lemma BorrowConservesStock(st: LibraryState, userId: int, bookId: int, now: int, book: int)
    requires book in st.books
    ensures Stock(Borrow(st, userId, bookId, now).0, book) == Stock(st, book)
  {
    var st1 := Borrow(st, userId, bookId, now).0;
    if Borrow(st, userId, bookId, now).1 == Borrowed {
      assert st1.loans[..|st1.loans| - 1] == st.loans;
    }
  }

  /** With the guard, a return conserves every book's stock. */
  lemma ReturnOnceConservesStock(st: LibraryState, loanId: int, book: int)
    requires IdsIncreasing(st.loans) && book in st.books
    ensures Stock(ReturnOnce(st, loanId).0, book) == Stock(st, book)
  {
    match FindLoan(st.loans, loanId)
    case None =>
    case Some(l) =>
      if !l.returned {
        ActiveForBookMarked(st.loans, loanId, book);
        FindMarked(st.loans, loanId);
        var marked := MarkReturned(st.loans, loanId);
        assert ReturnOnce(st, loanId).0 == st.(loans := marked, books := IncrementQuantity(st.books, l.bookId));
      }
  }

  /** With the guard, a second return of the same loan is refused. */
  lemma ReturnOnceRefusesSecond(st: LibraryState, loanId: int)
    ensures ReturnOnce(ReturnOnce(st, loanId).0, loanId).1 != Done
  {
    FindMarked(st.loans, loanId);
  }

  /** One copy on the shelf, borrowed and returned: a second return of the same loan
      is answered like the first, and the shelf now holds two copies. */
  lemma DoubleReturnExample()
    ensures var st0 := LibraryState(map[1 := Book("T", "A", "I", None, 1)], [], 0);
      var st1 := Borrow(st0, 7, 1, 0).0;
      var st2 := Return(st1, 0).0;
      var (st3, o) := Return(st2, 0);
      && st2.books[1].quantity == 1
      && o == ReturnedOk && st3.books[1].quantity == 2
      && ReturnOnce(st2, 0).1 == AlreadyReturned && ReturnOnce(st2, 0).0.books[1].quantity == 1
  {
  }

  // ---------------------------------------------------------------- the tables as an object

  class Library {
    var books: map<int, Book>
    var loans: seq<Loan>
    var nextLoanId: nat

    function State(): LibraryState
      reads this
    {
      LibraryState(books, loans, nextLoanId)
    }

    ghost predicate Valid()
      reads this
    {
      ValidState(State())
    }

    constructor (initialBooks: map<int, Book>)
      requires forall b :: b in initialBooks ==> initialBooks[b].quantity >= 0
      ensures Valid()
      ensures books == initialBooks && loans == [] && nextLoanId == 1
    {
      books := initialBooks;
      loans := [];
      nextLoanId := 1;
    }

    /** `connection.rollback()`: back to the state saved at `beginTransaction`. */
    method Rollback(snapshot: LibraryState)
      modifies this
      ensures State() == snapshot
    {
      books, loans, nextLoanId := snapshot.books, snapshot.loans, snapshot.nextLoanId;
    }

    method BorrowBook(userId: int, bookId: int, now: int) returns (outcome: BorrowOutcome)
      requires Valid()
      modifies this
      ensures Valid()
      ensures (State(), outcome) == Borrow(old(State()), userId, bookId, now)
    {
      var snapshot := State();
      var dueDate := now + LoanPeriodMs;
      var count := ActiveCount(loans, userId);
      if count >= MaxActiveLoans {
        Rollback(snapshot);
        return LimitReached;
      }
      if bookId !in books {
        Rollback(snapshot);
        return BorrowFailed;
      }
      if books[bookId].quantity < 1 {
        Rollback(snapshot);
        return NotAvailable;
      }
      books := books[bookId := books[bookId].(quantity := books[bookId].quantity - 1)];
      loans := loans + [Loan(nextLoanId, userId, bookId, dueDate, false)];
      nextLoanId := nextLoanId + 1;
      outcome := Borrowed;
      BorrowKeepsValid(snapshot, userId, bookId, now);
    }

    method ReturnBook(loanId: int) returns (outcome: ReturnOutcome)
      requires Valid()
      modifies this
      ensures Valid()
      ensures (State(), outcome) == Return(old(State()), loanId)
    {
      var snapshot := State();
      loans := MarkReturned(loans, loanId);
      var found := FindLoan(loans, loanId);
      if found.None? {
        Rollback(snapshot);
        return ReturnFailed;
      }
      books := IncrementQuantity(books, found.value.bookId);
      outcome := ReturnedOk;
      ReturnKeepsValid(snapshot, loanId);
    }

    /** The return with the guard that conserves stock (see `ReturnOnce`). */
    method ReturnBookOnce(loanId: int) returns (outcome: ReturnOnceOutcome)
      requires Valid()
      modifies this
      ensures Valid()
      ensures (State(), outcome) == ReturnOnce(old(State()), loanId)
    {
      var found := FindLoan(loans, loanId);
      if found.None? {
        return NotFound;
      }
      if found.value.returned {
        return AlreadyReturned;
      }
      var _ := ReturnBook(loanId);
      outcome := Done;
    }

  }
}
