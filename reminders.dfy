/** The reminder rows that `getUserMessages` and `getUserNotifications` both read from
    the loan table before anything is stored: loans due within two days and overdue
    loans, with the titles and texts built from them. Dates are day numbers: a
    `DATETIME` of `t` milliseconds falls on day `t / MsPerDay`, `CURDATE()` is the
    parameter `today`, and `DATEDIFF` is the difference of day numbers. */
module Reminders {
  import opened Base
  import opened Strings
  import opened Sorting
  import opened Loans

  /** The calendar day of a due date. */
  function DueDay(dueDate: int): int {
    dueDate / MsPerDay
  }

  /** `DATEDIFF(l.due_date, CURDATE())`. */
  function DaysRemaining(l: Loan, today: int): int {
    DueDay(l.dueDate) - today
  }

  /** The rows both queries join: the user's unreturned loans whose book exists. */
  predicate Joined(l: Loan, books: map<int, Book>, user: int) {
    l.userId == user && !l.returned && l.bookId in books
  }

  /** `DATEDIFF(l.due_date, CURDATE()) BETWEEN 0 AND 2`. */
  predicate IsDueSoon(l: Loan, books: map<int, Book>, user: int, today: int) {
    Joined(l, books, user) && 0 <= DaysRemaining(l, today) <= 2
  }

  /** `l.due_date < CURDATE()`: the due instant is before midnight starting today. */
  predicate IsOverdue(l: Loan, books: map<int, Book>, user: int, today: int) {
    Joined(l, books, user) && l.dueDate < today * MsPerDay
  }

  /** A due instant is before today's midnight exactly when its day is before today. */
  lemma BeforeMidnightIffEarlierDay(dueDate: int, today: int)
    ensures dueDate < today * MsPerDay <==> DueDay(dueDate) < today
  {
    var d := DueDay(dueDate);
    assert d * MsPerDay <= dueDate < (d + 1) * MsPerDay;
    if d < today {
      assert (d + 1) * MsPerDay <= today * MsPerDay;
    } else {
      assert today * MsPerDay <= d * MsPerDay;
    }
  }

  /** A loan is overdue exactly when its days remaining are negative, so no loan is both
      due soon and overdue, and an overdue loan is at least one day late. */
  lemma OverdueIffNegative(l: Loan, books: map<int, Book>, user: int, today: int)
    ensures IsOverdue(l, books, user, today) <==> Joined(l, books, user) && DaysRemaining(l, today) < 0
    ensures !(IsDueSoon(l, books, user, today) && IsOverdue(l, books, user, today))
    ensures IsOverdue(l, books, user, today) ==> Abs(DaysRemaining(l, today)) >= 1
  {
    BeforeMidnightIffEarlierDay(l.dueDate, today);
  }

  /** `ORDER BY l.due_date ASC`. */
  function ByDueDate(l: Loan): Key {
    Key(l.dueDate, 0)
  }

  /** The test the due-soon query's `WHERE` applies. */
  function DueSoonBy(books: map<int, Book>, user: int, today: int): Loan -> bool {
    l => IsDueSoon(l, books, user, today)
  }

  /** The test the overdue query's `WHERE` applies. */
  function OverdueBy(books: map<int, Book>, user: int, today: int): Loan -> bool {
    l => IsOverdue(l, books, user, today)
  }

  /** The due-soon query: exactly the user's unreturned loans due today or within two
      days, each as often as the table holds it (once per row), earliest due first. */
  function DueSoonLoans(loans: seq<Loan>, books: map<int, Book>, user: int, today: int): (r: seq<Loan>)
    ensures forall l :: l in r <==> l in loans && IsDueSoon(l, books, user, today)
    ensures multiset(r) == multiset(Filter(loans, DueSoonBy(books, user, today)))
    ensures SortedBy(r, ByDueDate)
  {
    var r := SortBy(Filter(loans, DueSoonBy(books, user, today)), ByDueDate);
    SortByMembers(Filter(loans, DueSoonBy(books, user, today)), ByDueDate);
    r
  }

  /** The overdue query: exactly the user's unreturned loans due before today, each as
      often as the table holds it (once per row), earliest due first. */
  function OverdueLoans(loans: seq<Loan>, books: map<int, Book>, user: int, today: int): (r: seq<Loan>)
    ensures forall l :: l in r <==> l in loans && IsOverdue(l, books, user, today)
    ensures multiset(r) == multiset(Filter(loans, OverdueBy(books, user, today)))
    ensures SortedBy(r, ByDueDate)
  {
    var r := SortBy(Filter(loans, OverdueBy(books, user, today)), ByDueDate);
    SortByMembers(Filter(loans, OverdueBy(books, user, today)), ByDueDate);
    r
  }

  /** Both reminder lists come from the user's own unreturned loans and share no loan;
      when loan ids are unique they share no loan id either. */
  lemma RemindersDisjoint(loans: seq<Loan>, books: map<int, Book>, user: int, today: int)
    requires IdsIncreasing(loans)
    ensures forall l :: l in DueSoonLoans(loans, books, user, today) ==> l.userId == user && !l.returned
    ensures forall l :: l in OverdueLoans(loans, books, user, today) ==> l.userId == user && !l.returned
    ensures forall a, b ::
              a in DueSoonLoans(loans, books, user, today) && b in OverdueLoans(loans, books, user, today)
              ==> a.id != b.id
  {
    forall a, b | a in DueSoonLoans(loans, books, user, today) && b in OverdueLoans(loans, books, user, today)
      ensures a.id != b.id
    {
      OverdueIffNegative(a, books, user, today);
      OverdueIffNegative(b, books, user, today);
      var i :| 0 <= i < |loans| && loans[i] == a;
      var j :| 0 <= j < |loans| && loans[j] == b;
      assert i != j;
      assert loans[i].id != loans[j].id by {
        if i < j { assert loans[i].id < loans[j].id; } else { assert loans[j].id < loans[i].id; }
      }
    }
  }

  /** Loan ids are the table's key: two loans with the same id are the same row. */
  lemma SameIdSameLoan(loans: seq<Loan>, a: Loan, b: Loan)
    requires IdsIncreasing(loans) && a in loans && b in loans && a.id == b.id
    ensures a == b
  {
    var i :| 0 <= i < |loans| && loans[i] == a;
    var j :| 0 <= j < |loans| && loans[j] == b;
    assert loans[i].id == loans[j].id;
  }

  /** An element standing at two positions is counted at least twice. */
  lemma TwoPositionsCount<T>(r: seq<T>, i: int, j: int)
    requires 0 <= i < j < |r| && r[i] == r[j]
    ensures multiset(r)[r[i]] >= 2
  {
    assert r == r[..j] + r[j..];
    assert r[i] in r[..j] && r[j..][0] == r[i];
  }

  /** Loan ids are strictly increasing, so the table holds each row once. */
  lemma RowOnce(loans: seq<Loan>, x: Loan)
    requires IdsIncreasing(loans) && x in loans
    ensures multiset(loans)[x] == 1
  {
    var k :| 0 <= k < |loans| && loans[k] == x;
    assert loans == loans[..k] + [x] + loans[k + 1..];
    assert x !in loans[..k];
    assert x !in loans[k + 1..];
  }

  /** A list drawn from the loan table without repeating any row carries each loan id
      at most once. */
  lemma DrawnIdsDistinct(loans: seq<Loan>, r: seq<Loan>)
    requires IdsIncreasing(loans) && multiset(r) <= multiset(loans)
    ensures forall i, j :: 0 <= i < j < |r| ==> r[i].id != r[j].id
  {
    forall i, j | 0 <= i < j < |r| ensures r[i].id != r[j].id {
      if r[i].id == r[j].id {
        assert r[i] in multiset(loans) && r[j] in multiset(loans);
        SameIdSameLoan(loans, r[i], r[j]);
        TwoPositionsCount(r, i, j);
        RowOnce(loans, r[i]);
      }
    }
  }

  /** Both queries list rows of the table, earliest due first. */
  lemma QueriesFromTable(loans: seq<Loan>, books: map<int, Book>, user: int, today: int)
    ensures var ds := DueSoonLoans(loans, books, user, today);
      SortedBy(ds, ByDueDate) && forall l :: l in ds ==> l in loans
    ensures var os := OverdueLoans(loans, books, user, today);
      SortedBy(os, ByDueDate) && forall l :: l in os ==> l in loans
  {
  }

  /** Each reminder list names every loan at most once, since the table's ids are
      unique. */
  lemma RemindersOncePerLoan(loans: seq<Loan>, books: map<int, Book>, user: int, today: int)
    requires IdsIncreasing(loans)
    ensures var r := DueSoonLoans(loans, books, user, today);
      forall i, j :: 0 <= i < j < |r| ==> r[i].id != r[j].id
    ensures var r := OverdueLoans(loans, books, user, today);
      forall i, j :: 0 <= i < j < |r| ==> r[i].id != r[j].id
  {
    FilterMultiset(loans, DueSoonBy(books, user, today));
    DrawnIdsDistinct(loans, DueSoonLoans(loans, books, user, today));
    FilterMultiset(loans, OverdueBy(books, user, today));
    DrawnIdsDistinct(loans, OverdueLoans(loans, books, user, today));
  }

  /** In a list of loans sorted by due date, the loans whose ids stand at an earlier
      and a later position are due in that order. */
  lemma EarlierIdEarlierDue(loans: seq<Loan>, ls: seq<Loan>, i: int, j: int, li: Loan, lj: Loan)
    requires IdsIncreasing(loans) && SortedBy(ls, ByDueDate)
    requires forall l :: l in ls ==> l in loans
    requires 0 <= i < j < |ls| && li in loans && lj in loans
    requires li.id == ls[i].id && lj.id == ls[j].id
    ensures li.dueDate <= lj.dueDate
  {
    assert ls[i] in ls && ls[j] in ls;
    SameIdSameLoan(loans, li, ls[i]);
    SameIdSameLoan(loans, lj, ls[j]);
    assert KeyLe(ByDueDate(ls[i]), ByDueDate(ls[j]));
  }

  /** Within each reminder section of `ms` (`section` 0 or 1), the loan of an earlier
      entry is due no later than the loan of a later one. */
  predicate EarliestDueFirst<T>(ms: seq<T>, loans: seq<Loan>, loanOf: T -> Option<int>, section: T -> nat) {
    forall i, j, li, lj ::
      0 <= i < j < |ms| && section(ms[i]) == section(ms[j]) < 2
      && li in loans && lj in loans && loanOf(ms[i]) == Some(li.id) && loanOf(ms[j]) == Some(lj.id)
      ==> li.dueDate <= lj.dueDate
  }

  /** The loans named by an earlier and a later entry of `a` are due in that order. */
  predicate DueInOrder<T>(a: seq<T>, loans: seq<Loan>, loanOf: T -> Option<int>) {
    forall i, j, li, lj ::
      0 <= i < j < |a| && li in loans && lj in loans && loanOf(a[i]) == Some(li.id) && loanOf(a[j]) == Some(lj.id)
      ==> li.dueDate <= lj.dueDate
  }

  /** Entries made one per loan of a query sorted by due date name their loans in due
      order. */
  lemma SortedSection<T>(loans: seq<Loan>, ds: seq<Loan>, a: seq<T>, loanOf: T -> Option<int>)
    requires IdsIncreasing(loans) && SortedBy(ds, ByDueDate)
    requires forall l :: l in ds ==> l in loans
    requires |a| == |ds| && forall k :: 0 <= k < |a| ==> loanOf(a[k]) == Some(ds[k].id)
    ensures DueInOrder(a, loans, loanOf)
  {
    forall i, j, li, lj |
        0 <= i < j < |a| && li in loans && lj in loans && loanOf(a[i]) == Some(li.id) && loanOf(a[j]) == Some(lj.id)
      ensures li.dueDate <= lj.dueDate
    {
      EarlierIdEarlierDue(loans, ds, i, j, li, lj);
    }
  }

  /** A list made of a due-soon section, an overdue section and the stored section, the
      first two each in due order, is earliest due first within each reminder section. */
  lemma SectionsByDueDate<T>(loans: seq<Loan>, a: seq<T>, b: seq<T>, c: seq<T>,
                             loanOf: T -> Option<int>, section: T -> nat)
    requires DueInOrder(a, loans, loanOf) && DueInOrder(b, loans, loanOf)
    requires forall k :: 0 <= k < |a| ==> section(a[k]) == 0
    requires forall k :: 0 <= k < |b| ==> section(b[k]) == 1
    requires forall k :: 0 <= k < |c| ==> section(c[k]) == 2
    ensures EarliestDueFirst(a + b + c, loans, loanOf, section)
  {
    var ms := a + b + c;
    forall i, j, li, lj |
        0 <= i < j < |ms| && section(ms[i]) == section(ms[j]) < 2
        && li in loans && lj in loans && loanOf(ms[i]) == Some(li.id) && loanOf(ms[j]) == Some(lj.id)
      ensures li.dueDate <= lj.dueDate
    {
      if j < |a| {
        assert ms[i] == a[i] && ms[j] == a[j];
      } else if |a| <= i && j < |a| + |b| {
        assert ms[i] == b[i - |a|] && ms[j] == b[j - |a|];
      }
    }
  }

  // ---------------------------------------------------------------- reminder texts

  const DueSoonPrefix: string := "due_soon_"
  const OverduePrefix: string := "overdue_"

  /** The id of a reminder: `due_soon_<loan id>` or `overdue_<loan id>`. */
  function ReminderId(prefix: string, loanId: nat): string {
    prefix + NatToString(loanId)
  }

  /** `"<title>" is due today` or `"<title>" is due in N day(s)`. */
  function DueSoonTitle(title: string, days: int): string {
    "\"" + title + "\" is due " + (if days == 0 then "today" else "in " + IntToString(days) + " day(s)")
  }

  const DueSoonText: string := "Please return or renew the book to avoid overdue penalties."

  function OverdueTitle(title: string): string {
    "\"" + title + "\" is overdue"
  }

  /** The overdue text, with the absolute number of days. */
  const OverdueTextTail: string := " day(s) overdue. Please return it as soon as possible."

  function OverdueText(days: int): string {
    "This book is " + IntToString(days) + OverdueTextTail
  }

  /** The due-soon title says "today" exactly for zero days remaining, and different
      numbers of days give different titles. */
  lemma DueSoonTitleDistinct(title: string, a: int, b: int)
    ensures DueSoonTitle(title, a) == "\"" + title + "\" is due today" <==> a == 0
    ensures DueSoonTitle(title, a) == DueSoonTitle(title, b) <==> a == b
  {
    DueSoonTitleToday(title, a);
    if DueSoonTitle(title, a) == DueSoonTitle(title, b) {
      DueSoonTitleInjective(title, a, b);
    }
  }

  lemma DueSoonTitleToday(title: string, a: int)
    ensures DueSoonTitle(title, a) == "\"" + title + "\" is due today" <==> a == 0
  {
    var head := "\"" + title + "\" is due ";
    var ta := if a == 0 then "today" else "in " + IntToString(a) + " day(s)";
    assert DueSoonTitle(title, a) == head + ta;
    if a != 0 {
      assert ta[0] == 'i' != 't';
      assert (head + ta)[|head|] == 'i';
      assert (head + "today")[|head|] == 't';
    }
  }

  lemma DueSoonTitleInjective(title: string, a: int, b: int)
    requires DueSoonTitle(title, a) == DueSoonTitle(title, b)
    ensures a == b
  {
    var head := "\"" + title + "\" is due ";
    var ta := if a == 0 then "today" else "in " + IntToString(a) + " day(s)";
    var tb := if b == 0 then "today" else "in " + IntToString(b) + " day(s)";
    assert DueSoonTitle(title, a) == head + ta;
    assert DueSoonTitle(title, b) == head + tb;
    assert ta == (head + ta)[|head|..] == (head + tb)[|head|..] == tb;
    if a != 0 && b != 0 {
      var sa := IntToString(a);
      var sb := IntToString(b);
      LengthsFromSuffix(sa, sb, ta, tb);
      assert sa == ta[3..|ta| - 7] == tb[3..|tb| - 7] == sb;
      IntToStringInjective(a, b);
    }
  }

  lemma LengthsFromSuffix(sa: string, sb: string, ta: string, tb: string)
    requires ta == "in " + sa + " day(s)" && tb == "in " + sb + " day(s)" && ta == tb
    ensures |sa| == |sb| && ta[3..|ta| - 7] == sa
  {
  }

  /** Different day counts give different overdue texts. */
  lemma OverdueTextDistinct(a: int, b: int)
    ensures OverdueText(a) == OverdueText(b) <==> a == b
  {
    if OverdueText(a) == OverdueText(b) {
      var sa := IntToString(a);
      var sb := IntToString(b);
      var tail := OverdueTextTail;
      assert OverdueText(a) == "This book is " + sa + tail;
      assert |sa| == |sb|;
      assert sa == OverdueText(a)[13..13 + |sa|];
      assert sb == OverdueText(b)[13..13 + |sb|];
      IntToStringInjective(a, b);
    }
  }

  // ---------------------------------------------------------------- the query rows

  /** A row of either reminder query: the loan id, the book title, and the days
      remaining (due-soon query) or `ABS` of them (overdue query). */
  datatype ReminderRow = ReminderRow(loanId: nat, title: string, days: int)

  function RowsOf(ls: seq<Loan>, books: map<int, Book>, today: int, absolute: bool): (r: seq<ReminderRow>)
    requires forall i :: 0 <= i < |ls| ==> ls[i].bookId in books
    ensures |r| == |ls|
    ensures forall i :: 0 <= i < |ls| ==>
      r[i] == ReminderRow(ls[i].id, books[ls[i].bookId].title,
                          if absolute then Abs(DaysRemaining(ls[i], today)) else DaysRemaining(ls[i], today))
    decreases |ls|
  {
    if ls == [] then []
    else
      var l := ls[|ls| - 1];
      var d := DaysRemaining(l, today);
      RowsOf(ls[..|ls| - 1], books, today, absolute)
        + [ReminderRow(l.id, books[l.bookId].title, if absolute then Abs(d) else d)]
  }

  /** The rows the due-soon query returns. */
  function DueSoonRows(loans: seq<Loan>, books: map<int, Book>, user: int, today: int): seq<ReminderRow> {
    var ls := DueSoonLoans(loans, books, user, today);
    assert forall i :: 0 <= i < |ls| ==> ls[i] in ls;
    RowsOf(ls, books, today, false)
  }

  /** The rows the overdue query returns. */
  function OverdueRows(loans: seq<Loan>, books: map<int, Book>, user: int, today: int): seq<ReminderRow> {
    var ls := OverdueLoans(loans, books, user, today);
    assert forall i :: 0 <= i < |ls| ==> ls[i] in ls;
    RowsOf(ls, books, today, true)
  }

  /** Every due-soon row is for a loan of the user's due within two days, with that
      loan's book title and days remaining; every overdue row is for a loan of the
      user's due before today, with a positive day count. */
  lemma RowsSpec(loans: seq<Loan>, books: map<int, Book>, user: int, today: int)
    ensures forall r :: r in DueSoonRows(loans, books, user, today) ==>
      0 <= r.days <= 2 &&
      exists l :: l in loans && IsDueSoon(l, books, user, today) && r.loanId == l.id
        && r.title == books[l.bookId].title && r.days == DaysRemaining(l, today)
    ensures forall r :: r in OverdueRows(loans, books, user, today) ==>
      r.days >= 1 &&
      exists l :: l in loans && IsOverdue(l, books, user, today) && r.loanId == l.id
        && r.title == books[l.bookId].title && r.days == today - DueDay(l.dueDate)
  {
    var ds := DueSoonLoans(loans, books, user, today);
    var os := OverdueLoans(loans, books, user, today);
    forall r | r in DueSoonRows(loans, books, user, today)
      ensures 0 <= r.days <= 2
      ensures exists l :: l in loans && IsDueSoon(l, books, user, today) && r.loanId == l.id
                            && r.title == books[l.bookId].title && r.days == DaysRemaining(l, today)
    {
      var rs := DueSoonRows(loans, books, user, today);
      var i :| 0 <= i < |rs| && rs[i] == r;
      assert ds[i] in ds;
    }
    forall r | r in OverdueRows(loans, books, user, today)
      ensures r.days >= 1
      ensures exists l :: l in loans && IsOverdue(l, books, user, today) && r.loanId == l.id
                            && r.title == books[l.bookId].title && r.days == today - DueDay(l.dueDate)
    {
      var rs := OverdueRows(loans, books, user, today);
      var i :| 0 <= i < |rs| && rs[i] == r;
      assert os[i] in os;
      OverdueIffNegative(os[i], books, user, today);
    }
  }
}
