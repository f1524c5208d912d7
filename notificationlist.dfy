/** The notification list, as the component and the dashboard draw it: the icon, the
    relative time, and which of the two buttons (Renew, Mark as Read) each notification
    offers. Drawing and the click handlers are left out. */
module NotificationList {
  import opened Base
  import opened Loans
  import opened Reminders
  import opened RelativeTime
  import opened Notifications

  const NotificationKinds: seq<string> := ["due_soon", "overdue", "reservation", "new_arrivals"]

  /** `getNotificationIcon`: a fixed icon for each of the four known kinds, a bell for
      any other. */
  function NotificationIcon(kind: string): (icon: string)
    ensures icon == "bell" <==> kind !in NotificationKinds
    ensures kind == "due_soon" ==> icon == "exclamation-circle"
    ensures kind == "overdue" ==> icon == "exclamation-triangle"
    ensures kind == "reservation" ==> icon == "check-circle"
    ensures kind == "new_arrivals" ==> icon == "info-circle"
  {
    if kind == "due_soon" then "exclamation-circle"
    else if kind == "overdue" then "exclamation-triangle"
    else if kind == "reservation" then "check-circle"
    else if kind == "new_arrivals" then "info-circle"
    else "bell"
  }

  /** What one row shows: the unread mark, the icon, title, text and time, a Renew
      button (carrying the loan id) for the `due_soon` kind and a Mark as Read button
      while unread. */
  datatype Row = Row(id: Id, unread: bool, icon: string, title: string, message: string, time: string,
                     renew: bool, loanId: Option<int>, markRead: bool)

  function RowOf(n: Notification, now: int): Row {
    Row(n.id, !n.read, NotificationIcon(n.kind), n.title, n.message, NotificationTime(At(n.createdAt), now),
        n.kind == "due_soon", n.loanId, !n.read)
  }

  /** The dashboard's list: the "No notifications" notice, or the rows. */
  datatype View = NoNotifications | Rows(rows: seq<Row>)

  /** `renderNotifications` of the dashboard: the notice exactly for an empty list,
      otherwise the component's rows, one per notification in order. */
  function DashboardView(ns: seq<Notification>, now: int): (v: View)
    ensures v.NoNotifications? <==> ns == []
    ensures v.Rows? ==> |v.rows| == |ns| && forall i :: 0 <= i < |ns| ==> v.rows[i] == RowOf(ns[i], now)
  {
    if |ns| == 0 then NoNotifications else Rows(MapSeq(ns, n => RowOf(n, now)))
  }

  /** In the list the server sends, every reminder offers Mark as Read; a due-soon
      reminder also offers Renew, for a loan of the user's that is due soon, while an
      overdue one does not. */
  lemma ReminderButtons(t: NotificationTable, lib: LibraryState, user: int, today: int, now: int, n: Notification)
    requires n in UserNotifications(t, lib, user, today, now) && n.id.Text?
    ensures RowOf(n, now).markRead && RowOf(n, now).unread
    ensures RowOf(n, now).renew ==>
      exists l :: l in lib.loans && RowOf(n, now).loanId == Some(l.id) && IsDueSoon(l, lib.books, user, today)
    ensures RowOf(n, now).renew <==> n.kind == "due_soon"
    ensures RowOf(n, now).icon == (if n.kind == "due_soon" then "exclamation-circle" else "exclamation-triangle")
  {
    UserNotificationsSpec(t, lib, user, today, now);
    assert IsReminderFor(n, lib, user, today);
  }

  /** A stored notification offers Mark as Read exactly while its `read` column is not 1. */
  lemma StoredButtons(t: NotificationTable, lib: LibraryState, user: int, today: int, now: int, n: Notification)
    requires n in UserNotifications(t, lib, user, today, now) && n.id.Num?
    ensures exists r :: r in t.rows && r.userId == user && n == StoredNotificationOf(r)
                        && (RowOf(n, now).markRead <==> r.read != 1)
  {
    UserNotificationsSpec(t, lib, user, today, now);
    assert IsStoredFor(n, t.rows, user);
  }

  /** Marking a reminder read does not stick: once the list is fetched again the
      reminder still offers Mark as Read. */
  lemma MarkReadComesBack(t: NotificationTable, lib: LibraryState, user: int, today: int, now: int,
                          prefix: string, loanId: nat, n: Notification)
    requires prefix == DueSoonPrefix || prefix == OverduePrefix
    requires n in UserNotifications(MarkRead(t, ReminderId(prefix, loanId)).0, lib, user, today, now)
    requires n.id == Text(ReminderId(prefix, loanId))
    ensures RowOf(n, now).markRead
  {
    ReminderStaysUnread(t, lib, user, today, now, prefix, loanId);
  }
}
