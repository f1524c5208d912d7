/** The notifications controller: the per-user notification list that puts reminders
    made up from the loan table before rows of the notifications table, and the
    handlers that mark a notification read and create one. Unlike messages,
    reminders here are never remembered as read, and stored rows are never deleted. */
module Notifications {
  import opened Base
  import opened Strings
  import opened Sorting
  import opened Loans
  import opened Reminders
  import Messages

  /** A notification as the client receives it. */
  datatype Notification = Notification(
    id: Id, kind: string, title: string, message: string, loanId: Option<int>,
    read: bool, createdAt: int)

  /** A row of the notifications table; `read` is the integer column the driver returns. */
  datatype StoredNotification = StoredNotification(
    id: nat, userId: int, kind: string, title: string, message: string,
    loanId: Option<int>, read: int, createdAt: int)

  datatype NotificationTable = NotificationTable(rows: seq<StoredNotification>, nextId: nat)

  /** `LIMIT 20` on stored notifications. */
  const NotificationLimit: nat := 20

  // ---------------------------------------------------------------- the notification list

  /** A due-soon reminder: always unread. */
  function DueSoonNotification(row: ReminderRow, now: int): Notification {
    Notification(Text(ReminderId(DueSoonPrefix, row.loanId)), "due_soon", DueSoonTitle(row.title, row.days),
                 DueSoonText, Some(row.loanId), false, now)
  }

  /** An overdue reminder: always unread. */
  function OverdueNotification(row: ReminderRow, now: int): Notification {
    Notification(Text(ReminderId(OverduePrefix, row.loanId)), "overdue", OverdueTitle(row.title),
                 OverdueText(row.days), Some(row.loanId), false, now)
  }

  /** A stored row as sent to the client: read exactly when its column holds 1. */
  function StoredNotificationOf(n: StoredNotification): Notification {
    Notification(Num(n.id), n.kind, n.title, n.message, n.loanId, n.read == 1, n.createdAt)
  }

  function DueSoonNotifications(rows: seq<ReminderRow>, now: int): (r: seq<Notification>)
    ensures |r| == |rows|
    ensures forall i :: 0 <= i < |rows| ==> r[i] == DueSoonNotification(rows[i], now)
    decreases |rows|
  {
    if rows == [] then []
    else DueSoonNotifications(rows[..|rows| - 1], now) + [DueSoonNotification(rows[|rows| - 1], now)]
  }

  function OverdueNotifications(rows: seq<ReminderRow>, now: int): (r: seq<Notification>)
    ensures |r| == |rows|
    ensures forall i :: 0 <= i < |rows| ==> r[i] == OverdueNotification(rows[i], now)
    decreases |rows|
  {
    if rows == [] then []
    else OverdueNotifications(rows[..|rows| - 1], now) + [OverdueNotification(rows[|rows| - 1], now)]
  }

  function StoredNotifications(ns: seq<StoredNotification>): (r: seq<Notification>)
    ensures |r| == |ns|
    ensures forall i :: 0 <= i < |ns| ==> r[i] == StoredNotificationOf(ns[i])
    decreases |ns|
  {
    if ns == [] then [] else StoredNotifications(ns[..|ns| - 1]) + [StoredNotificationOf(ns[|ns| - 1])]
  }

  /** The test `WHERE user_id = ?`: there is no deleted flag on notifications. */
  function OwnedBy(user: int): StoredNotification -> bool {
    (n: StoredNotification) => n.userId == user
  }

  /** `ORDER BY created_at DESC`. */
  function NewestFirst(n: StoredNotification): Key {
    Key(-n.createdAt, 0)
  }

  /** The stored-notifications query: the 20 newest of the user's rows, newest first;
      when the user has no more than 20 rows, all of them. */
  function NotificationsFor(rows: seq<StoredNotification>, user: int): (r: seq<StoredNotification>)
    ensures |r| == if |Filter(rows, OwnedBy(user))| < NotificationLimit then |Filter(rows, OwnedBy(user))| else NotificationLimit
    ensures multiset(r) <= multiset(Filter(rows, OwnedBy(user)))
    ensures forall n :: n in r ==> n in rows && n.userId == user
    ensures SortedBy(r, NewestFirst)
    ensures |Filter(rows, OwnedBy(user))| <= NotificationLimit ==>
      forall n :: n in rows && n.userId == user ==> n in r
    ensures forall n, o :: n in r && o in rows && o.userId == user && o !in r ==> o.createdAt <= n.createdAt
  {
    var r := SelectOrdered(rows, OwnedBy(user), NewestFirst, NotificationLimit);
    forall n, o | n in r && o in rows && o.userId == user && o !in r ensures o.createdAt <= n.createdAt {
      assert OwnedBy(user)(o);
      assert KeyLe(NewestFirst(n), NewestFirst(o));
    }
    r
  }

  /** The list `getUserNotifications` answers with: due-soon reminders, then overdue
      reminders, then stored notifications. */
  function UserNotifications(t: NotificationTable, lib: LibraryState, user: int, today: int, now: int)
    : seq<Notification>
  {
    DueSoonNotifications(DueSoonRows(lib.loans, lib.books, user, today), now)
      + OverdueNotifications(OverdueRows(lib.loans, lib.books, user, today), now)
      + StoredNotifications(NotificationsFor(t.rows, user))
  }

  /** Position of a notification in the list: due-soon reminders, overdue reminders, stored. */
  function Section(n: Notification): nat {
    if n.id.Num? then 2 else if n.kind == "due_soon" then 0 else 1
  }

  /** `n` is an unread reminder for one of the user's unreturned loans, due soon or
      overdue as its kind says, with the id made from the loan id. */
  ghost predicate IsReminderFor(n: Notification, lib: LibraryState, user: int, today: int) {
    && n.id.Text? && !n.read
    && exists l :: l in lib.loans && n.loanId == Some(l.id)
         && ((n.kind == "due_soon" && n.id.s == ReminderId(DueSoonPrefix, l.id) && IsDueSoon(l, lib.books, user, today))
             || (n.kind == "overdue" && n.id.s == ReminderId(OverduePrefix, l.id) && IsOverdue(l, lib.books, user, today)))
  }

  /** `n` is one of the user's rows, read exactly when its column is 1. */
  ghost predicate IsStoredFor(n: Notification, rows: seq<StoredNotification>, user: int) {
    n.id.Num? && exists r :: r in rows && r.userId == user && n == StoredNotificationOf(r) && (n.read <==> r.read == 1)
  }

  lemma DueSoonPart(lib: LibraryState, user: int, today: int, now: int)
    ensures forall n :: n in DueSoonNotifications(DueSoonRows(lib.loans, lib.books, user, today), now) ==>
      Section(n) == 0 && IsReminderFor(n, lib, user, today)
  {
    var rows := DueSoonRows(lib.loans, lib.books, user, today);
    RowsSpec(lib.loans, lib.books, user, today);
    var a := DueSoonNotifications(rows, now);
    forall n | n in a ensures Section(n) == 0 && IsReminderFor(n, lib, user, today) {
      var i :| 0 <= i < |a| && a[i] == n;
      assert rows[i] in rows;
      DueSoonRowIsReminder(rows[i], lib, user, today, now);
    }
  }

  lemma OverduePart(lib: LibraryState, user: int, today: int, now: int)
    ensures forall n :: n in OverdueNotifications(OverdueRows(lib.loans, lib.books, user, today), now) ==>
      Section(n) == 1 && IsReminderFor(n, lib, user, today)
  {
    var rows := OverdueRows(lib.loans, lib.books, user, today);
    RowsSpec(lib.loans, lib.books, user, today);
    var b := OverdueNotifications(rows, now);
    forall n | n in b ensures Section(n) == 1 && IsReminderFor(n, lib, user, today) {
      var i :| 0 <= i < |b| && b[i] == n;
      assert rows[i] in rows;
      OverdueRowIsReminder(rows[i], lib, user, today, now);
    }
  }

  lemma DueSoonRowIsReminder(row: ReminderRow, lib: LibraryState, user: int, today: int, now: int)
    requires exists l :: l in lib.loans && IsDueSoon(l, lib.books, user, today) && row.loanId == l.id
    ensures Section(DueSoonNotification(row, now)) == 0
    ensures IsReminderFor(DueSoonNotification(row, now), lib, user, today)
  {
    var l :| l in lib.loans && IsDueSoon(l, lib.books, user, today) && row.loanId == l.id;
    assert DueSoonNotification(row, now).id.s == ReminderId(DueSoonPrefix, l.id);
  }

  lemma OverdueRowIsReminder(row: ReminderRow, lib: LibraryState, user: int, today: int, now: int)
    requires exists l :: l in lib.loans && IsOverdue(l, lib.books, user, today) && row.loanId == l.id
    ensures Section(OverdueNotification(row, now)) == 1
    ensures IsReminderFor(OverdueNotification(row, now), lib, user, today)
  {
    var l :| l in lib.loans && IsOverdue(l, lib.books, user, today) && row.loanId == l.id;
    assert OverdueNotification(row, now).id.s == ReminderId(OverduePrefix, l.id);
  }

  lemma StoredPart(rows: seq<StoredNotification>, user: int)
    ensures forall n :: n in StoredNotifications(NotificationsFor(rows, user)) ==>
      Section(n) == 2 && IsStoredFor(n, rows, user)
  {
    var stored := NotificationsFor(rows, user);
    var c := StoredNotifications(stored);
    forall n | n in c ensures Section(n) == 2 && IsStoredFor(n, rows, user) {
      var i :| 0 <= i < |c| && c[i] == n;
      assert stored[i] in stored;
    }
  }

  lemma SectionsInOrder(a: seq<Notification>, b: seq<Notification>, c: seq<Notification>)
    requires forall n :: n in a ==> Section(n) == 0
    requires forall n :: n in b ==> Section(n) == 1
    requires forall n :: n in c ==> Section(n) == 2
    ensures forall i, j :: 0 <= i < j < |a + b + c| ==> Section((a + b + c)[i]) <= Section((a + b + c)[j])
  {
    var ns := a + b + c;
    forall i | 0 <= i < |ns|
      ensures Section(ns[i]) == (if i < |a| then 0 else if i < |a| + |b| then 1 else 2)
    {
      if i < |a| { assert ns[i] == a[i] && a[i] in a; }
      else if i < |a| + |b| { assert ns[i] == b[i - |a|] && b[i - |a|] in b; }
      else { assert ns[i] == c[i - |a| - |b|] && c[i - |a| - |b|] in c; }
    }
  }

  /** `n` is the reminder of loan `l` with the given id prefix: unread, with its id and
      loan id made from the loan. */
  predicate IsReminderOf(n: Notification, l: Loan, kind: string, prefix: string) {
    n.id == Text(ReminderId(prefix, l.id)) && n.kind == kind && n.loanId == Some(l.id) && !n.read
  }

  /** Every due-soon loan of the user has its reminder in the due-soon section. */
  lemma DueSoonComplete(lib: LibraryState, user: int, today: int, now: int)
    ensures var a := DueSoonNotifications(DueSoonRows(lib.loans, lib.books, user, today), now);
      forall l :: l in lib.loans && IsDueSoon(l, lib.books, user, today) ==>
        exists n :: n in a && IsReminderOf(n, l, "due_soon", DueSoonPrefix)
  {
    var ds := DueSoonLoans(lib.loans, lib.books, user, today);
    var a := DueSoonNotifications(DueSoonRows(lib.loans, lib.books, user, today), now);
    forall l | l in lib.loans && IsDueSoon(l, lib.books, user, today)
      ensures exists n :: n in a && IsReminderOf(n, l, "due_soon", DueSoonPrefix)
    {
      var i :| 0 <= i < |ds| && ds[i] == l;
      assert a[i] in a && IsReminderOf(a[i], l, "due_soon", DueSoonPrefix);
    }
  }

  /** Every overdue loan of the user has its reminder in the overdue section. */
  lemma OverdueComplete(lib: LibraryState, user: int, today: int, now: int)
    ensures var b := OverdueNotifications(OverdueRows(lib.loans, lib.books, user, today), now);
      forall l :: l in lib.loans && IsOverdue(l, lib.books, user, today) ==>
        exists n :: n in b && IsReminderOf(n, l, "overdue", OverduePrefix)
  {
    var os := OverdueLoans(lib.loans, lib.books, user, today);
    var b := OverdueNotifications(OverdueRows(lib.loans, lib.books, user, today), now);
    forall l | l in lib.loans && IsOverdue(l, lib.books, user, today)
      ensures exists n :: n in b && IsReminderOf(n, l, "overdue", OverduePrefix)
    {
      var i :| 0 <= i < |os| && os[i] == l;
      assert b[i] in b && IsReminderOf(b[i], l, "overdue", OverduePrefix);
    }
  }

  /** What the list promises: due-soon reminders, then overdue reminders, then the
      stored notifications (at most 20, see `NotificationsFor`); every reminder is an
      unread one for a loan of the user's (see `IsReminderFor`), every other
      notification one of the user's rows, and every due-soon or overdue loan of the
      user has its reminder in the list. */
  lemma UserNotificationsSpec(t: NotificationTable, lib: LibraryState, user: int, today: int, now: int)
    ensures var ns := UserNotifications(t, lib, user, today, now);
      && (forall i, j :: 0 <= i < j < |ns| ==> Section(ns[i]) <= Section(ns[j]))
      && (forall n :: n in ns && n.id.Text? ==> IsReminderFor(n, lib, user, today))
      && (forall n :: n in ns && n.id.Num? ==> IsStoredFor(n, t.rows, user))
      && (forall l :: l in lib.loans && IsDueSoon(l, lib.books, user, today) ==>
            exists n :: n in ns && IsReminderOf(n, l, "due_soon", DueSoonPrefix))
      && (forall l :: l in lib.loans && IsOverdue(l, lib.books, user, today) ==>
            exists n :: n in ns && IsReminderOf(n, l, "overdue", OverduePrefix))
  {
    DueSoonPart(lib, user, today, now);
    OverduePart(lib, user, today, now);
    StoredPart(t.rows, user);
    DueSoonComplete(lib, user, today, now);
    OverdueComplete(lib, user, today, now);
    var a := DueSoonNotifications(DueSoonRows(lib.loans, lib.books, user, today), now);
    var b := OverdueNotifications(OverdueRows(lib.loans, lib.books, user, today), now);
    var c := StoredNotifications(NotificationsFor(t.rows, user));
    SectionsInOrder(a, b, c);
  }

  /** The due-soon section holds one reminder per due-soon loan, in the query's order. */
  lemma DueSoonLoanIds(lib: LibraryState, user: int, today: int, now: int)
    ensures var ds := DueSoonLoans(lib.loans, lib.books, user, today);
      var a := DueSoonNotifications(DueSoonRows(lib.loans, lib.books, user, today), now);
      |a| == |ds| && forall k :: 0 <= k < |a| ==> a[k].loanId == Some(ds[k].id) && Section(a[k]) == 0
  {
  }

  /** The overdue section holds one reminder per overdue loan, in the query's order. */
  lemma OverdueLoanIds(lib: LibraryState, user: int, today: int, now: int)
    ensures var os := OverdueLoans(lib.loans, lib.books, user, today);
      var b := OverdueNotifications(OverdueRows(lib.loans, lib.books, user, today), now);
      |b| == |os| && forall k :: 0 <= k < |b| ==> b[k].loanId == Some(os[k].id) && Section(b[k]) == 1
  {
  }

  /** Each part of the list carries its own section number. */
  lemma PartSections(due: seq<ReminderRow>, late: seq<ReminderRow>, stored: seq<StoredNotification>, now: int)
    ensures forall k :: 0 <= k < |DueSoonNotifications(due, now)| ==> Section(DueSoonNotifications(due, now)[k]) == 0
    ensures forall k :: 0 <= k < |OverdueNotifications(late, now)| ==> Section(OverdueNotifications(late, now)[k]) == 1
    ensures forall k :: 0 <= k < |StoredNotifications(stored)| ==> Section(StoredNotifications(stored)[k]) == 2
  {
  }

  function LoanOf(n: Notification): Option<int> {
    n.loanId
  }

  /** Within each reminder section the list is earliest due first: when loan ids are
      unique, the loan of an earlier reminder is due no later than that of a later one
      of the same kind. */
  lemma RemindersEarliestDueFirst(t: NotificationTable, lib: LibraryState, user: int, today: int, now: int)
    requires IdsIncreasing(lib.loans)
    ensures EarliestDueFirst(UserNotifications(t, lib, user, today, now), lib.loans, LoanOf, Section)
  {
    var a := DueSoonNotifications(DueSoonRows(lib.loans, lib.books, user, today), now);
    var b := OverdueNotifications(OverdueRows(lib.loans, lib.books, user, today), now);
    var c := StoredNotifications(NotificationsFor(t.rows, user));
    PartSections(DueSoonRows(lib.loans, lib.books, user, today), OverdueRows(lib.loans, lib.books, user, today),
                 NotificationsFor(t.rows, user), now);
    DueSoonInDueOrder(lib, user, today, now);
    OverdueInDueOrder(lib, user, today, now);
    SectionsByDueDate(lib.loans, a, b, c, LoanOf, Section);
  }

  /** The due-soon section names its loans in due order. */
  lemma DueSoonInDueOrder(lib: LibraryState, user: int, today: int, now: int)
    requires IdsIncreasing(lib.loans)
    ensures DueInOrder(DueSoonNotifications(DueSoonRows(lib.loans, lib.books, user, today), now), lib.loans, LoanOf)
  {
    DueSoonLoanIds(lib, user, today, now);
    QueriesFromTable(lib.loans, lib.books, user, today);
    SortedSection(lib.loans, DueSoonLoans(lib.loans, lib.books, user, today),
                  DueSoonNotifications(DueSoonRows(lib.loans, lib.books, user, today), now), LoanOf);
  }

  /** The overdue section names its loans in due order. */
  lemma OverdueInDueOrder(lib: LibraryState, user: int, today: int, now: int)
    requires IdsIncreasing(lib.loans)
    ensures DueInOrder(OverdueNotifications(OverdueRows(lib.loans, lib.books, user, today), now), lib.loans, LoanOf)
  {
    OverdueLoanIds(lib, user, today, now);
    QueriesFromTable(lib.loans, lib.books, user, today);
    SortedSection(lib.loans, OverdueLoans(lib.loans, lib.books, user, today),
                  OverdueNotifications(OverdueRows(lib.loans, lib.books, user, today), now), LoanOf);
  }

  // ---------------------------------------------------------------- handlers

  /** `WHERE id = ?` with the id as it arrives in the URL: the owner is not checked. */
  predicate HasId(n: StoredNotification, id: string) {
    NatToString(n.id) == id
  }

  function SetRead(rows: seq<StoredNotification>, id: string): (r: seq<StoredNotification>)
    ensures |r| == |rows|
    ensures forall i :: 0 <= i < |rows| ==> r[i] == if HasId(rows[i], id) then rows[i].(read := 1) else rows[i]
  {
    seq(|rows|, i requires 0 <= i < |rows| => if HasId(rows[i], id) then rows[i].(read := 1) else rows[i])
  }

  /** `markNotificationAsRead`: a reminder id is answered 200 with no write; any other
      id sets `read` on the row with that id, whoever owns it (200 whether or not there
      is one). */
  function MarkRead(t: NotificationTable, id: string): (NotificationTable, int) {
    if Messages.IsReminderId(id) then (t, 200)
    else (t.(rows := SetRead(t.rows, id)), 200)
  }

  /** Marking a notification read always succeeds; a reminder id writes nothing, and any
      other id changes exactly the rows with that id, of any user, to read. */
  lemma MarkReadSpec(t: NotificationTable, id: string)
    ensures var (t', status) := MarkRead(t, id);
      && status == 200
      && (Messages.IsReminderId(id) ==> t' == t)
      && t'.nextId == t.nextId && |t'.rows| == |t.rows|
      && (forall i :: 0 <= i < |t.rows| && !HasId(t.rows[i], id) ==> t'.rows[i] == t.rows[i])
      && (!Messages.IsReminderId(id) ==>
            forall i :: 0 <= i < |t.rows| && HasId(t.rows[i], id) ==> t'.rows[i] == t.rows[i].(read := 1))
  {
  }

  /** Marking a notification read twice is marking it once. */
  lemma MarkReadIdempotent(t: NotificationTable, id: string)
    ensures MarkRead(MarkRead(t, id).0, id) == MarkRead(t, id)
  {
    var t1 := MarkRead(t, id).0;
    assert SetRead(t1.rows, id) == t1.rows;
  }

  /** A stored notification marked read by its id shows as read in its owner's list,
      and the same request marks it read when it comes from another user. */
  lemma MarkStoredRead(t: NotificationTable, n: StoredNotification, user: int)
    requires n in t.rows
    ensures var t' := MarkRead(t, NatToString(n.id)).0;
      && n.(read := 1) in t'.rows
      && (forall r :: r in NotificationsFor(t'.rows, user) && r.id == n.id ==> StoredNotificationOf(r).read)
  {
    var id := NatToString(n.id);
    assert !Messages.IsReminderId(id) by {
      assert IsDigit(id[0]);
      assert |id| >= 9 ==> id[..9][0] == id[0];
      assert |id| >= 8 ==> id[..8][0] == id[0];
    }
    var i :| 0 <= i < |t.rows| && t.rows[i] == n;
    var t' := MarkRead(t, id).0;
    assert t'.rows[i] == n.(read := 1);
    ShownRowsRead(t.rows, id);
  }

  /** After `SetRead`, every row that carries the id is read. */
  lemma ShownRowsRead(rows: seq<StoredNotification>, id: string)
    ensures forall r :: r in SetRead(rows, id) && NatToString(r.id) == id ==> r.read == 1
  {
    var rows' := SetRead(rows, id);
    forall r | r in rows' && NatToString(r.id) == id ensures r.read == 1 {
      var k :| 0 <= k < |rows'| && rows'[k] == r;
      assert HasId(rows[k], id);
    }
  }

  /** Reminders cannot be marked read: the request succeeds, yet the reminder is in
      the list afterwards exactly as before, unread. */
  lemma ReminderStaysUnread(t: NotificationTable, lib: LibraryState, user: int, today: int, now: int,
                            prefix: string, loanId: nat)
    requires prefix == DueSoonPrefix || prefix == OverduePrefix
    ensures var (t', status) := MarkRead(t, ReminderId(prefix, loanId));
      && status == 200
      && UserNotifications(t', lib, user, today, now) == UserNotifications(t, lib, user, today, now)
      && forall n :: n in UserNotifications(t', lib, user, today, now) && n.id == Text(ReminderId(prefix, loanId))
           ==> !n.read
  {
    var id := ReminderId(prefix, loanId);
    assert id[..|prefix|] == prefix;
    UserNotificationsSpec(t, lib, user, today, now);
  }

  /** The JSON body of `createNotification`. */
  datatype NotificationRequest = NotificationRequest(
    userId: Option<int>, kind: Option<string>, title: Option<string>, message: Option<string>,
    loanId: Option<int>)

  predicate Complete(req: NotificationRequest) {
    Messages.TruthyId(req.userId) && Truthy(req.kind) && Truthy(req.title) && Truthy(req.message)
  }

  /** `createNotification`: 400 unless the four fields are present, else a new row
      stamped `now`, unread by the column's default (201). */
  function Create(t: NotificationTable, req: NotificationRequest, now: int): (NotificationTable, int) {
    if !Complete(req) then (t, 400)
    else
      var row := StoredNotification(t.nextId, req.userId.value, req.kind.value, req.title.value,
                                    req.message.value, Messages.LoanOrNull(req.loanId), 0, now);
      (t.(rows := t.rows + [row], nextId := t.nextId + 1), 201)
  }

  /** `createNotification` refuses a request missing any of the four fields and changes
      nothing; otherwise it appends one unread row for the user, with a missing or zero
      loan id stored as NULL. */
  lemma CreateSpec(t: NotificationTable, req: NotificationRequest, now: int)
    ensures var (t', status) := Create(t, req, now);
      && (status == 400 <==> !Complete(req))
      && (status == 400 ==> t' == t)
      && (status == 201 ==>
            && |t'.rows| == |t.rows| + 1 && t'.rows[..|t.rows|] == t.rows
            && var n := t'.rows[|t.rows|];
               && n.userId == req.userId.value && n.id == t.nextId
               && (n.loanId.None? <==> req.loanId.None? || req.loanId == Some(0))
               && !StoredNotificationOf(n).read)
  {
  }

  // ---------------------------------------------------------------- the loops of getUserNotifications

  /** The `forEach` that pushes one due-soon reminder per query row. */
  method PushDueSoon(head: seq<Notification>, rows: seq<ReminderRow>, now: int)
    returns (notifications: seq<Notification>)
    ensures notifications == head + DueSoonNotifications(rows, now)
  {
    notifications := head;
    for i := 0 to |rows|
      invariant notifications == head + DueSoonNotifications(rows[..i], now)
    {
      DueSoonSnoc(rows, i, now);
      notifications := notifications + [DueSoonNotification(rows[i], now)];
    }
    assert rows[..|rows|] == rows;
  }

  /** The `forEach` that pushes one overdue reminder per query row. */
  method PushOverdue(head: seq<Notification>, rows: seq<ReminderRow>, now: int)
    returns (notifications: seq<Notification>)
    ensures notifications == head + OverdueNotifications(rows, now)
  {
    notifications := head;
    for i := 0 to |rows|
      invariant notifications == head + OverdueNotifications(rows[..i], now)
    {
      OverdueSnoc(rows, i, now);
      notifications := notifications + [OverdueNotification(rows[i], now)];
    }
    assert rows[..|rows|] == rows;
  }

  /** One more row gives one more due-soon reminder at the end. */
  lemma DueSoonSnoc(rows: seq<ReminderRow>, i: int, now: int)
    requires 0 <= i < |rows|
    ensures DueSoonNotifications(rows[..i + 1], now) == DueSoonNotifications(rows[..i], now) + [DueSoonNotification(rows[i], now)]
  {
    assert rows[..i + 1][..i] == rows[..i];
  }

  /** One more row gives one more overdue reminder at the end. */
  lemma OverdueSnoc(rows: seq<ReminderRow>, i: int, now: int)
    requires 0 <= i < |rows|
    ensures OverdueNotifications(rows[..i + 1], now) == OverdueNotifications(rows[..i], now) + [OverdueNotification(rows[i], now)]
  {
    assert rows[..i + 1][..i] == rows[..i];
  }

  /** The `forEach` that pushes the stored notifications. */
  method PushStored(head: seq<Notification>, stored: seq<StoredNotification>)
    returns (notifications: seq<Notification>)
    ensures notifications == head + StoredNotifications(stored)
  {
    notifications := head;
    for i := 0 to |stored|
      invariant notifications == head + StoredNotifications(stored[..i])
    {
      assert stored[..i + 1][..i] == stored[..i];
      assert StoredNotifications(stored[..i + 1]) == StoredNotifications(stored[..i]) + [StoredNotificationOf(stored[i])];
      notifications := notifications + [StoredNotificationOf(stored[i])];
    }
    assert stored[..|stored|] == stored;
  }

  // ---------------------------------------------------------------- the table as an object

  class NotificationStore {
    var rows: seq<StoredNotification>
    var nextId: nat

    function Table(): NotificationTable
      reads this
    {
      NotificationTable(rows, nextId)
    }

    constructor ()
      ensures Table() == NotificationTable([], 1)
    {
      rows := [];
      nextId := 1;
    }

    /** `getUserNotifications`: pushes the due-soon reminders, the overdue reminders
        and the stored notifications. */
    method GetUserNotifications(lib: LibraryState, user: int, today: int, now: int)
      returns (notifications: seq<Notification>)
      ensures notifications == UserNotifications(Table(), lib, user, today, now)
    {
      var dueSoon := DueSoonRows(lib.loans, lib.books, user, today);
      var overdue := OverdueRows(lib.loans, lib.books, user, today);
      var stored := NotificationsFor(rows, user);
      var a := DueSoonNotifications(dueSoon, now);
      var b := OverdueNotifications(overdue, now);
      notifications := PushDueSoon([], dueSoon, now);
      assert notifications == a;
      notifications := PushOverdue(notifications, overdue, now);
      assert notifications == a + b;
      notifications := PushStored(notifications, stored);
    }

    method MarkNotificationAsRead(id: string) returns (status: int)
      modifies this
      ensures (Table(), status) == MarkRead(old(Table()), id)
    {
      if IsPrefix(DueSoonPrefix, id) || IsPrefix(OverduePrefix, id) {
        return 200;
      }
      rows := SetRead(rows, id);
      return 200;
    }

    method CreateNotification(req: NotificationRequest, now: int) returns (status: int, notificationId: nat)
      modifies this
      ensures (Table(), status) == Create(old(Table()), req, now)
      ensures status == 201 ==> notificationId == old(nextId)
    {
      if !Complete(req) {
        return 400, 0;
      }
      notificationId := nextId;
      rows := rows + [StoredNotification(nextId, req.userId.value, req.kind.value, req.title.value,
                                         req.message.value, Messages.LoanOrNull(req.loanId), 0, now)];
      nextId := nextId + 1;
      status := 201;
    }
  }
}
