/** The messages controller: the per-user message list that mixes reminders made up
    from the loan table with rows of the messages table, and the handlers that delete,
    mark read and create messages. A reminder is "read" when the user has a row for it
    in the dismissed-reminders table. */
module Messages {
  import opened Base
  import opened Strings
  import opened Sorting
  import opened Loans
  import opened Reminders

  /** A message as the client receives it. */
  datatype Message = Message(
    id: Id, kind: string, title: string, text: string, loanId: Option<int>,
    createdAt: int, system: bool, read: bool)

  /** A row of the messages table; `read` is the integer column the driver returns. */
  datatype StoredMessage = StoredMessage(
    id: nat, userId: int, kind: string, title: string, content: string,
    loanId: Option<int>, createdAt: int, read: int, deleted: bool)

  /** A row of the dismissed-reminders table. The loan id is kept as the text the
      handlers take out of a reminder id. */
  datatype DismissedRow = DismissedRow(userId: int, loanId: Option<string>, kind: string)

  datatype MessageTables = MessageTables(rows: seq<StoredMessage>, dismissed: seq<DismissedRow>, nextId: nat)

  /** `LIMIT 50` on stored messages. */
  const StoredLimit: nat := 50

  predicate Unread(m: Message) {
    !m.read
  }

  // ---------------------------------------------------------------- the message list

  /** `${message_type}_${loan_id}`, where a NULL loan id prints as `null`. */
  function DismissedKey(d: DismissedRow): string {
    d.kind + "_" + (match d.loanId case Some(s) => s case None => "null")
  }

  /** The test `WHERE user_id = ?` on dismissed rows. */
  function DismissedBy(user: int): DismissedRow -> bool {
    (d: DismissedRow) => d.userId == user
  }

  function UserDismissed(dismissed: seq<DismissedRow>, user: int): seq<DismissedRow> {
    Filter(dismissed, DismissedBy(user))
  }

  /** The keys of the lookup table built from the user's dismissed rows. */
  function KeysOf(rows: seq<DismissedRow>): (keys: set<string>)
    ensures forall k :: k in keys <==> exists i :: 0 <= i < |rows| && DismissedKey(rows[i]) == k
    decreases |rows|
  {
    if rows == [] then {}
    else
      var front := rows[..|rows| - 1];
      var keys := KeysOf(front) + {DismissedKey(rows[|rows| - 1])};
      assert forall i :: 0 <= i < |front| ==> front[i] == rows[i];
      keys
  }

  /** The keys of every dismissed row of `user`. */
  function DismissedKeys(dismissed: seq<DismissedRow>, user: int): set<string> {
    KeysOf(UserDismissed(dismissed, user))
  }

  /** A due-soon reminder built from a query row. */
  function DueSoonMessage(row: ReminderRow, keys: set<string>, now: int): Message {
    var id := ReminderId(DueSoonPrefix, row.loanId);
    Message(Text(id), "due_soon", DueSoonTitle(row.title, row.days), DueSoonText, Some(row.loanId), now, true, id in keys)
  }

  /** An overdue reminder built from a query row. */
  function OverdueMessage(row: ReminderRow, keys: set<string>, now: int): Message {
    var id := ReminderId(OverduePrefix, row.loanId);
    Message(Text(id), "overdue", OverdueTitle(row.title), OverdueText(row.days), Some(row.loanId), now, true, id in keys)
  }

  /** A stored row as sent to the client: read exactly when its column holds 1. */
  function StoredMessageOf(m: StoredMessage): Message {
    Message(Num(m.id), m.kind, m.title, m.content, m.loanId, m.createdAt, false, m.read == 1)
  }

  function DueSoonMessages(rows: seq<ReminderRow>, keys: set<string>, now: int): (r: seq<Message>)
    ensures |r| == |rows|
    ensures forall i :: 0 <= i < |rows| ==> r[i] == DueSoonMessage(rows[i], keys, now)
    decreases |rows|
  {
    if rows == [] then []
    else DueSoonMessages(rows[..|rows| - 1], keys, now) + [DueSoonMessage(rows[|rows| - 1], keys, now)]
  }

  function OverdueMessages(rows: seq<ReminderRow>, keys: set<string>, now: int): (r: seq<Message>)
    ensures |r| == |rows|
    ensures forall i :: 0 <= i < |rows| ==> r[i] == OverdueMessage(rows[i], keys, now)
    decreases |rows|
  {
    if rows == [] then []
    else OverdueMessages(rows[..|rows| - 1], keys, now) + [OverdueMessage(rows[|rows| - 1], keys, now)]
  }

  function StoredMessages(ms: seq<StoredMessage>): (r: seq<Message>)
    ensures |r| == |ms|
    ensures forall i :: 0 <= i < |ms| ==> r[i] == StoredMessageOf(ms[i])
    decreases |ms|
  {
    if ms == [] then [] else StoredMessages(ms[..|ms| - 1]) + [StoredMessageOf(ms[|ms| - 1])]
  }

  predicate VisibleTo(m: StoredMessage, user: int) {
    m.userId == user && !m.deleted
  }

  /** The test `WHERE user_id = ? AND deleted = FALSE`. */
  function VisibleBy(user: int): StoredMessage -> bool {
    m => VisibleTo(m, user)
  }

  /** `ORDER BY created_at DESC`. */
  function NewestFirst(m: StoredMessage): Key {
    Key(-m.createdAt, 0)
  }

  /** The stored-messages query: the 50 newest of the user's rows that are not deleted,
      newest first; when the user has no more than 50 such rows, all of them. */
  function StoredFor(rows: seq<StoredMessage>, user: int): (r: seq<StoredMessage>)
    ensures |r| == if |Filter(rows, VisibleBy(user))| < StoredLimit then |Filter(rows, VisibleBy(user))| else StoredLimit
    ensures multiset(r) <= multiset(Filter(rows, VisibleBy(user)))
    ensures forall m :: m in r ==> m in rows && VisibleTo(m, user)
    ensures SortedBy(r, NewestFirst)
    ensures |Filter(rows, VisibleBy(user))| <= StoredLimit ==>
      forall m :: m in rows && VisibleTo(m, user) ==> m in r
    ensures forall m, o :: m in r && o in rows && VisibleTo(o, user) && o !in r ==> o.createdAt <= m.createdAt
  {
    var r := SelectOrdered(rows, VisibleBy(user), NewestFirst, StoredLimit);
    forall m, o | m in r && o in rows && VisibleTo(o, user) && o !in r ensures o.createdAt <= m.createdAt {
      assert VisibleBy(user)(o);
      assert KeyLe(NewestFirst(m), NewestFirst(o));
    }
    r
  }

  /** The list `getUserMessages` answers with: due-soon reminders, then overdue
      reminders, then stored messages. */
  function UserMessages(t: MessageTables, lib: LibraryState, user: int, today: int, now: int): seq<Message> {
    var keys := DismissedKeys(t.dismissed, user);
    DueSoonMessages(DueSoonRows(lib.loans, lib.books, user, today), keys, now)
      + OverdueMessages(OverdueRows(lib.loans, lib.books, user, today), keys, now)
      + StoredMessages(StoredFor(t.rows, user))
  }

  /** Position of a message in the list: due-soon reminders, overdue reminders, stored. */
  function Section(m: Message): nat {
    if !m.system then 2 else if m.kind == "due_soon" then 0 else 1
  }

  /** `m` is a reminder of the user's: for one of their unreturned loans, due soon or
      overdue as its kind says, with the id made from the loan id, and read exactly
      when the user dismissed that id. */
  ghost predicate IsReminderFor(m: Message, lib: LibraryState, user: int, today: int, keys: set<string>) {
    && m.system && m.id.Text?
    && (m.read <==> m.id.s in keys)
    && exists l :: l in lib.loans && m.loanId == Some(l.id)
         && ((m.kind == "due_soon" && m.id.s == ReminderId(DueSoonPrefix, l.id) && IsDueSoon(l, lib.books, user, today))
             || (m.kind == "overdue" && m.id.s == ReminderId(OverduePrefix, l.id) && IsOverdue(l, lib.books, user, today)))
  }

  /** `m` is one of the user's undeleted rows, read exactly when its column is 1. */
  ghost predicate IsStoredFor(m: Message, rows: seq<StoredMessage>, user: int) {
    !m.system && exists r :: r in rows && VisibleTo(r, user) && m == StoredMessageOf(r) && (m.read <==> r.read == 1)
  }

  lemma DueSoonPart(lib: LibraryState, user: int, today: int, keys: set<string>, now: int)
    ensures forall m :: m in DueSoonMessages(DueSoonRows(lib.loans, lib.books, user, today), keys, now) ==>
      Section(m) == 0 && IsReminderFor(m, lib, user, today, keys)
  {
    var rows := DueSoonRows(lib.loans, lib.books, user, today);
    RowsSpec(lib.loans, lib.books, user, today);
    var a := DueSoonMessages(rows, keys, now);
    forall m | m in a ensures Section(m) == 0 && IsReminderFor(m, lib, user, today, keys) {
      var i :| 0 <= i < |a| && a[i] == m;
      assert rows[i] in rows;
    }
  }

  lemma OverduePart(lib: LibraryState, user: int, today: int, keys: set<string>, now: int)
    ensures forall m :: m in OverdueMessages(OverdueRows(lib.loans, lib.books, user, today), keys, now) ==>
      Section(m) == 1 && IsReminderFor(m, lib, user, today, keys)
  {
    var rows := OverdueRows(lib.loans, lib.books, user, today);
    RowsSpec(lib.loans, lib.books, user, today);
    var b := OverdueMessages(rows, keys, now);
    forall m | m in b ensures Section(m) == 1 && IsReminderFor(m, lib, user, today, keys) {
      var i :| 0 <= i < |b| && b[i] == m;
      assert rows[i] in rows;
    }
  }

  lemma StoredPart(rows: seq<StoredMessage>, user: int)
    ensures forall m :: m in StoredMessages(StoredFor(rows, user)) ==> Section(m) == 2 && IsStoredFor(m, rows, user)
  {
    var stored := StoredFor(rows, user);
    var c := StoredMessages(stored);
    forall m | m in c ensures Section(m) == 2 && IsStoredFor(m, rows, user) {
      var i :| 0 <= i < |c| && c[i] == m;
      assert stored[i] in stored;
    }
  }

  /** `m` is the reminder of loan `l` with the given id prefix: its id and loan id come
      from the loan, and it is read exactly when the user dismissed that id. */
  predicate IsReminderOf(m: Message, l: Loan, kind: string, prefix: string, keys: set<string>) {
    && m.system && m.kind == kind && m.loanId == Some(l.id)
    && m.id == Text(ReminderId(prefix, l.id))
    && (m.read <==> ReminderId(prefix, l.id) in keys)
  }

  /** Every due-soon loan of the user has its reminder in the due-soon section. */
  lemma DueSoonComplete(lib: LibraryState, user: int, today: int, keys: set<string>, now: int)
    ensures var a := DueSoonMessages(DueSoonRows(lib.loans, lib.books, user, today), keys, now);
      forall l :: l in lib.loans && IsDueSoon(l, lib.books, user, today) ==>
        exists m :: m in a && IsReminderOf(m, l, "due_soon", DueSoonPrefix, keys)
  {
    var ds := DueSoonLoans(lib.loans, lib.books, user, today);
    var a := DueSoonMessages(DueSoonRows(lib.loans, lib.books, user, today), keys, now);
    forall l | l in lib.loans && IsDueSoon(l, lib.books, user, today)
      ensures exists m :: m in a && IsReminderOf(m, l, "due_soon", DueSoonPrefix, keys)
    {
      var i :| 0 <= i < |ds| && ds[i] == l;
      assert a[i] in a && IsReminderOf(a[i], l, "due_soon", DueSoonPrefix, keys);
    }
  }

  /** Every overdue loan of the user has its reminder in the overdue section. */
  lemma OverdueComplete(lib: LibraryState, user: int, today: int, keys: set<string>, now: int)
    ensures var b := OverdueMessages(OverdueRows(lib.loans, lib.books, user, today), keys, now);
      forall l :: l in lib.loans && IsOverdue(l, lib.books, user, today) ==>
        exists m :: m in b && IsReminderOf(m, l, "overdue", OverduePrefix, keys)
  {
    var os := OverdueLoans(lib.loans, lib.books, user, today);
    var b := OverdueMessages(OverdueRows(lib.loans, lib.books, user, today), keys, now);
    forall l | l in lib.loans && IsOverdue(l, lib.books, user, today)
      ensures exists m :: m in b && IsReminderOf(m, l, "overdue", OverduePrefix, keys)
    {
      var i :| 0 <= i < |os| && os[i] == l;
      assert b[i] in b && IsReminderOf(b[i], l, "overdue", OverduePrefix, keys);
    }
  }

  /** What the list promises: due-soon reminders, then overdue reminders, then stored
      messages; every reminder is one of the user's (see `IsReminderFor`), every other
      message one of the user's undeleted rows, and every due-soon or overdue loan of
      the user has its reminder in the list. */
  lemma UserMessagesSpec(t: MessageTables, lib: LibraryState, user: int, today: int, now: int)
    ensures var ms := UserMessages(t, lib, user, today, now);
      var keys := DismissedKeys(t.dismissed, user);
      && (forall i, j :: 0 <= i < j < |ms| ==> Section(ms[i]) <= Section(ms[j]))
      && (forall m :: m in ms && m.system ==> IsReminderFor(m, lib, user, today, keys))
      && (forall m :: m in ms && !m.system ==> IsStoredFor(m, t.rows, user))
      && (forall l :: l in lib.loans && IsDueSoon(l, lib.books, user, today) ==>
            exists m :: m in ms && IsReminderOf(m, l, "due_soon", DueSoonPrefix, keys))
      && (forall l :: l in lib.loans && IsOverdue(l, lib.books, user, today) ==>
            exists m :: m in ms && IsReminderOf(m, l, "overdue", OverduePrefix, keys))
  {
    var keys := DismissedKeys(t.dismissed, user);
    DueSoonPart(lib, user, today, keys, now);
    OverduePart(lib, user, today, keys, now);
    StoredPart(t.rows, user);
    DueSoonComplete(lib, user, today, keys, now);
    OverdueComplete(lib, user, today, keys, now);
    var a := DueSoonMessages(DueSoonRows(lib.loans, lib.books, user, today), keys, now);
    var b := OverdueMessages(OverdueRows(lib.loans, lib.books, user, today), keys, now);
    var c := StoredMessages(StoredFor(t.rows, user));
    var ms := a + b + c;
    SectionsInOrder(a, b, c);
  }

  /** The due-soon section holds one reminder per due-soon loan, in the query's order. */
  lemma DueSoonLoanIds(lib: LibraryState, user: int, today: int, keys: set<string>, now: int)
    ensures var ds := DueSoonLoans(lib.loans, lib.books, user, today);
      var a := DueSoonMessages(DueSoonRows(lib.loans, lib.books, user, today), keys, now);
      |a| == |ds| && forall k :: 0 <= k < |a| ==> a[k].loanId == Some(ds[k].id) && Section(a[k]) == 0
  {
  }

  /** The overdue section holds one reminder per overdue loan, in the query's order. */
  lemma OverdueLoanIds(lib: LibraryState, user: int, today: int, keys: set<string>, now: int)
    ensures var os := OverdueLoans(lib.loans, lib.books, user, today);
      var b := OverdueMessages(OverdueRows(lib.loans, lib.books, user, today), keys, now);
      |b| == |os| && forall k :: 0 <= k < |b| ==> b[k].loanId == Some(os[k].id) && Section(b[k]) == 1
  {
  }

  /** Each part of the list carries its own section number. */
  lemma PartSections(due: seq<ReminderRow>, late: seq<ReminderRow>, stored: seq<StoredMessage>, keys: set<string>, now: int)
    ensures forall k :: 0 <= k < |DueSoonMessages(due, keys, now)| ==> Section(DueSoonMessages(due, keys, now)[k]) == 0
    ensures forall k :: 0 <= k < |OverdueMessages(late, keys, now)| ==> Section(OverdueMessages(late, keys, now)[k]) == 1
    ensures forall k :: 0 <= k < |StoredMessages(stored)| ==> Section(StoredMessages(stored)[k]) == 2
  {
  }

  function LoanOf(m: Message): Option<int> {
    m.loanId
  }

  /** Within each reminder section the list is earliest due first: when loan ids are
      unique, the loan of an earlier reminder is due no later than that of a later one
      of the same kind. */
  lemma RemindersEarliestDueFirst(t: MessageTables, lib: LibraryState, user: int, today: int, now: int)
    requires IdsIncreasing(lib.loans)
    ensures EarliestDueFirst(UserMessages(t, lib, user, today, now), lib.loans, LoanOf, Section)
  {
    var keys := DismissedKeys(t.dismissed, user);
    var a := DueSoonMessages(DueSoonRows(lib.loans, lib.books, user, today), keys, now);
    var b := OverdueMessages(OverdueRows(lib.loans, lib.books, user, today), keys, now);
    var c := StoredMessages(StoredFor(t.rows, user));
    PartSections(DueSoonRows(lib.loans, lib.books, user, today), OverdueRows(lib.loans, lib.books, user, today),
                 StoredFor(t.rows, user), keys, now);
    DueSoonInDueOrder(lib, user, today, keys, now);
    OverdueInDueOrder(lib, user, today, keys, now);
    SectionsByDueDate(lib.loans, a, b, c, LoanOf, Section);
  }

  /** The due-soon section names its loans in due order. */
  lemma DueSoonInDueOrder(lib: LibraryState, user: int, today: int, keys: set<string>, now: int)
    requires IdsIncreasing(lib.loans)
    ensures DueInOrder(DueSoonMessages(DueSoonRows(lib.loans, lib.books, user, today), keys, now), lib.loans, LoanOf)
  {
    DueSoonLoanIds(lib, user, today, keys, now);
    QueriesFromTable(lib.loans, lib.books, user, today);
    SortedSection(lib.loans, DueSoonLoans(lib.loans, lib.books, user, today),
                  DueSoonMessages(DueSoonRows(lib.loans, lib.books, user, today), keys, now), LoanOf);
  }

  /** The overdue section names its loans in due order. */
  lemma OverdueInDueOrder(lib: LibraryState, user: int, today: int, keys: set<string>, now: int)
    requires IdsIncreasing(lib.loans)
    ensures DueInOrder(OverdueMessages(OverdueRows(lib.loans, lib.books, user, today), keys, now), lib.loans, LoanOf)
  {
    OverdueLoanIds(lib, user, today, keys, now);
    QueriesFromTable(lib.loans, lib.books, user, today);
    SortedSection(lib.loans, OverdueLoans(lib.loans, lib.books, user, today),
                  OverdueMessages(OverdueRows(lib.loans, lib.books, user, today), keys, now), LoanOf);
  }


  lemma SectionsInOrder(a: seq<Message>, b: seq<Message>, c: seq<Message>)
    requires forall m :: m in a ==> Section(m) == 0
    requires forall m :: m in b ==> Section(m) == 1
    requires forall m :: m in c ==> Section(m) == 2
    ensures forall k :: 0 <= k < |a + b + c| ==>
      Section((a + b + c)[k]) == if k < |a| then 0 else if k < |a| + |b| then 1 else 2
    ensures forall i, j :: 0 <= i < j < |a + b + c| ==> Section((a + b + c)[i]) <= Section((a + b + c)[j])
  {
    var ms := a + b + c;
    forall i | 0 <= i < |ms|
      ensures Section(ms[i]) == (if i < |a| then 0 else if i < |a| + |b| then 1 else 2)
    {
      if i < |a| { assert ms[i] == a[i] && a[i] in a; }
      else if i < |a| + |b| { assert ms[i] == b[i - |a|] && b[i - |a|] in b; }
      else { assert ms[i] == c[i - |a| - |b|] && c[i - |a| - |b|] in c; }
    }
  }

  // ---------------------------------------------------------------- reminder ids

  predicate IsReminderId(id: string) {
    IsPrefix(DueSoonPrefix, id) || IsPrefix(OverduePrefix, id)
  }

  /** A string holding the separator splits into at least two pieces. */
  lemma SplitAtSeparator(s: string, c: char)
    requires c in s
    ensures |Split(s, c)| >= 2
  {
    assert IndexOf(s, c) != -1;
  }

  /** The split both handlers do: type is the first two pieces joined by `_`, the loan
      id the third piece when there is one. */
  function SplitReminderId(id: string): (string, Option<string>)
    requires IsReminderId(id)
  {
    assert id[|id[..3]|] == '_' || id[|id[..7]|] == '_';
    SplitAtSeparator(id, '_');
    var parts := Split(id, '_');
    (parts[0] + "_" + parts[1], if |parts| >= 3 then Some(parts[2]) else None)
  }

  lemma NoSeparatorInDigits(n: nat)
    ensures '_' !in NatToString(n)
  {
    var d := NatToString(n);
    assert forall i :: 0 <= i < |d| ==> d[i] != '_';
  }

  lemma JoinThree(a: string, b: string, c: string, sep: char)
    ensures Join([a, b, c], sep) == a + [sep] + b + [sep] + c
  {
    assert [a, b, c][1..] == [b, c] && [b, c][1..] == [c];
    assert Join([c], sep) == c;
    assert Join([b, c], sep) == b + [sep] + c;
    assert Join([a, b, c], sep) == a + [sep] + (b + [sep] + c);
  }

  lemma DueSoonIdSplit(n: nat)
    ensures Split(ReminderId(DueSoonPrefix, n), '_') == ["due", "soon", NatToString(n)]
  {
    var d := NatToString(n);
    NoSeparatorInDigits(n);
    JoinThree("due", "soon", d, '_');
    assert "due" + ['_'] + "soon" + ['_'] + d == DueSoonPrefix + d;
    assert '_' !in "due" && '_' !in "soon";
    SplitJoin(["due", "soon", d], '_');
    assert Join(["due", "soon", d], '_') == ReminderId(DueSoonPrefix, n);
  }

  /** A due-soon reminder id splits back into its type and its loan id, so the key the
      handlers store is the key the message list looks up. */
  lemma DueSoonIdRoundTrip(n: nat)
    ensures IsReminderId(ReminderId(DueSoonPrefix, n))
    ensures SplitReminderId(ReminderId(DueSoonPrefix, n)) == ("due_soon", Some(NatToString(n)))
  {
    DueSoonIdSplit(n);
    assert ReminderId(DueSoonPrefix, n)[..|DueSoonPrefix|] == DueSoonPrefix;
    assert "due" + "_" + "soon" == "due_soon";
  }

  /** An overdue reminder id has a single `_`, so it splits into two pieces only: the
      type taken is `overdue_<n>` and there is no loan id. */
  lemma OverdueIdSplit(n: nat)
    ensures Split(ReminderId(OverduePrefix, n), '_') == ["overdue", NatToString(n)]
    ensures IsReminderId(ReminderId(OverduePrefix, n))
    ensures SplitReminderId(ReminderId(OverduePrefix, n)) == (ReminderId(OverduePrefix, n), None)
  {
    var d := NatToString(n);
    var parts := ["overdue", d];
    NoSeparatorInDigits(n);
    assert parts[1..] == [d];
    assert Join(parts, '_') == "overdue" + "_" + d;
    assert Join(parts, '_') == ReminderId(OverduePrefix, n);
    assert '_' !in "overdue";
    SplitJoin(parts, '_');
    assert ReminderId(OverduePrefix, n)[..|OverduePrefix|] == OverduePrefix;
  }

  /** The reading of a reminder id that both handlers mean: the type is the prefix and
      the loan id is the rest. */
  function ParseReminderId(id: string): (r: Option<(string, string)>)
    ensures r.Some? <==> IsReminderId(id)
    ensures r.Some? ==> r.value.0 + "_" + r.value.1 == id
  {
    if IsPrefix(DueSoonPrefix, id) then
      assert id == "due_soon" + "_" + id[9..] by { assert id == id[..9] + id[9..]; }
      Some(("due_soon", id[9..]))
    else if IsPrefix(OverduePrefix, id) then
      assert id == "overdue" + "_" + id[8..] by { assert id == id[..8] + id[8..]; }
      Some(("overdue", id[8..]))
    else None
  }

  /** Both kinds of reminder id parse back into their type and loan id. */
  lemma ParseReminderIdRoundTrip(n: nat)
    ensures ParseReminderId(ReminderId(DueSoonPrefix, n)) == Some(("due_soon", NatToString(n)))
    ensures ParseReminderId(ReminderId(OverduePrefix, n)) == Some(("overdue", NatToString(n)))
  {
    var ds := ReminderId(DueSoonPrefix, n);
    var od := ReminderId(OverduePrefix, n);
    assert ds[..9] == DueSoonPrefix && ds[9..] == NatToString(n);
    assert od[..8] == OverduePrefix && od[8..] == NatToString(n);
    assert !IsPrefix(DueSoonPrefix, od) by { assert od[1] != DueSoonPrefix[1]; }
  }

  // ---------------------------------------------------------------- handlers

  /** `WHERE id = ? AND user_id = ?` with the id as it arrives in the URL. */
  predicate Matches(m: StoredMessage, user: int, id: string) {
    m.userId == user && NatToString(m.id) == id
  }

  function SoftDelete(rows: seq<StoredMessage>, user: int, id: string): (r: seq<StoredMessage>)
    ensures |r| == |rows|
    ensures forall i :: 0 <= i < |rows| ==>
      r[i] == if Matches(rows[i], user, id) then rows[i].(deleted := true) else rows[i]
  {
    seq(|rows|, i requires 0 <= i < |rows| =>
      if Matches(rows[i], user, id) then rows[i].(deleted := true) else rows[i])
  }

  function SetRead(rows: seq<StoredMessage>, user: int, id: string): (r: seq<StoredMessage>)
    ensures |r| == |rows|
    ensures forall i :: 0 <= i < |rows| ==>
      r[i] == if Matches(rows[i], user, id) then rows[i].(read := 1) else rows[i]
  {
    seq(|rows|, i requires 0 <= i < |rows| =>
      if Matches(rows[i], user, id) then rows[i].(read := 1) else rows[i])
  }

  /** `deleteMessage`. A reminder id appends a dismissed row with a plain insert, even
      when the same row is already there; any other id soft deletes the user's row with
      that id, if there is one. Both answer 200. */
  function Delete(t: MessageTables, user: int, id: string): (MessageTables, int) {
    if IsReminderId(id) then
      var (kind, loan) := SplitReminderId(id);
      (t.(dismissed := t.dismissed + [DismissedRow(user, loan, kind)]), 200)
    else (t.(rows := SoftDelete(t.rows, user, id)), 200)
  }

  /** `markMessageAsRead`. An empty id is 400. A reminder id with fewer than three
      pieces is 400; otherwise the dismissed row is inserted unless it is there (200).
      Any other id must name a row of the user (else 404), whose `read` becomes 1. */
  function MarkRead(t: MessageTables, user: int, id: string): (MessageTables, int) {
    if id == "" then (t, 400)
    else if IsReminderId(id) then
      var parts := Split(id, '_');
      if |parts| < 3 then (t, 400)
      else
        var row := DismissedRow(user, Some(parts[2]), parts[0] + "_" + parts[1]);
        if row in t.dismissed then (t, 200) else (t.(dismissed := t.dismissed + [row]), 200)
    else if !exists i :: 0 <= i < |t.rows| && Matches(t.rows[i], user, id) then (t, 404)
    else (t.(rows := SetRead(t.rows, user, id)), 200)
  }

  /** The JSON body of `createMessage`. */
  datatype MessageRequest = MessageRequest(
    userId: Option<int>, kind: Option<string>, title: Option<string>, content: Option<string>, loanId: Option<int>)

  /** JavaScript truthiness of an optional number: present and not 0. */
  predicate TruthyId(n: Option<int>) {
    n.Some? && n.value != 0
  }

  predicate Complete(req: MessageRequest) {
    TruthyId(req.userId) && Truthy(req.kind) && Truthy(req.title) && Truthy(req.content)
  }

  /** `loanId || null`. */
  function LoanOrNull(loanId: Option<int>): Option<int> {
    if TruthyId(loanId) then loanId else None
  }

  /** `createMessage`: 400 unless the four fields are present, else a new unread,
      undeleted row stamped `now` (201). */
  function Create(t: MessageTables, req: MessageRequest, now: int): (MessageTables, int) {
    if !Complete(req) then (t, 400)
    else
      var row := StoredMessage(t.nextId, req.userId.value, req.kind.value, req.title.value,
                               req.content.value, LoanOrNull(req.loanId), now, 0, false);
      (t.(rows := t.rows + [row], nextId := t.nextId + 1), 201)
  }

  // ---------------------------------------------------------------- handler properties

  /** Deleting a stored message touches only the caller's row with that id, and the
      message is gone from the caller's list afterwards. */
  lemma DeleteStored(t: MessageTables, user: int, id: string, other: int)
    requires !IsReminderId(id)
    ensures var (t', status) := Delete(t, user, id);
      && status == 200 && t'.dismissed == t.dismissed && |t'.rows| == |t.rows|
      && (forall i :: 0 <= i < |t.rows| && t.rows[i].userId != user ==> t'.rows[i] == t.rows[i])
      && (forall m :: m in StoredFor(t'.rows, user) ==> NatToString(m.id) != id)
  {
  }

  /** Deleting a due-soon reminder answers 200, keeps the stored rows and makes the
      reminder's key one of the caller's dismissed keys, so it shows as read. */
  lemma DeleteDueSoon(t: MessageTables, user: int, n: nat)
    ensures var (t', status) := Delete(t, user, ReminderId(DueSoonPrefix, n));
      && status == 200 && t'.rows == t.rows
      && ReminderId(DueSoonPrefix, n) in DismissedKeys(t'.dismissed, user)
  {
    DueSoonIdRoundTrip(n);
    var id := ReminderId(DueSoonPrefix, n);
    var row := DismissedRow(user, Some(NatToString(n)), "due_soon");
    assert Delete(t, user, id).0.dismissed == t.dismissed + [row];
    assert DismissedKey(row) == id;
    AppendedKeyDismissed(t.dismissed, row);
  }

  /** A dismissed row appended for the user puts its key among the user's keys. */
  lemma AppendedKeyDismissed(dismissed: seq<DismissedRow>, row: DismissedRow)
    ensures DismissedKey(row) in DismissedKeys(dismissed + [row], row.userId)
  {
    FilterSnoc(dismissed, row, DismissedBy(row.userId));
    var us := UserDismissed(dismissed + [row], row.userId);
    assert us[|us| - 1] == row;
  }

  /** Marking a message read twice is marking it once. */
  lemma MarkReadIdempotent(t: MessageTables, user: int, id: string)
    ensures MarkRead(MarkRead(t, user, id).0, user, id) == (MarkRead(t, user, id).0, MarkRead(t, user, id).1)
  {
    var t1 := MarkRead(t, user, id).0;
    if id != "" && !IsReminderId(id) && exists i :: 0 <= i < |t.rows| && Matches(t.rows[i], user, id) {
      var i :| 0 <= i < |t.rows| && Matches(t.rows[i], user, id);
      assert Matches(t1.rows[i], user, id);
      assert SetRead(t1.rows, user, id) == t1.rows;
    }
  }

  /** An empty id is 400, and an id that is neither a reminder id nor the id of one of
      the caller's rows is 404; neither writes anything. */
  lemma MarkReadRefused(t: MessageTables, user: int, id: string)
    ensures id == "" ==> MarkRead(t, user, id) == (t, 400)
    ensures id != "" && !IsReminderId(id) ==>
      (MarkRead(t, user, id).1 == 404 <==> forall m :: m in t.rows ==> !Matches(m, user, id))
    ensures MarkRead(t, user, id).1 == 404 ==> MarkRead(t, user, id).0 == t
  {
    if id != "" && !IsReminderId(id) {
      if exists i :: 0 <= i < |t.rows| && Matches(t.rows[i], user, id) {
        var i :| 0 <= i < |t.rows| && Matches(t.rows[i], user, id);
        assert t.rows[i] in t.rows;
      }
    }
  }

  /** A stored message marked read shows as read in the caller's list. */
  lemma MarkStoredRead(t: MessageTables, user: int, m: StoredMessage)
    requires m in t.rows && VisibleTo(m, user)
    ensures var (t', status) := MarkRead(t, user, NatToString(m.id));
      && status == 200
      && m.(read := 1) in t'.rows
      && (forall r :: r in StoredFor(t'.rows, user) && r.id == m.id ==> StoredMessageOf(r).read)
  {
    var id := NatToString(m.id);
    assert !IsReminderId(id) by {
      assert IsDigit(id[0]);
      assert |id| >= 9 ==> id[..9][0] == id[0];
      assert |id| >= 8 ==> id[..8][0] == id[0];
    }
    var i :| 0 <= i < |t.rows| && t.rows[i] == m;
    assert Matches(t.rows[i], user, id);
    var t' := MarkRead(t, user, id).0;
    assert t'.rows[i] == m.(read := 1);
    ShownRowsRead(t.rows, user, id);
  }

  /** After `SetRead`, every row of the caller's that carries the id is read. */
  lemma ShownRowsRead(rows: seq<StoredMessage>, user: int, id: string)
    ensures forall r :: r in SetRead(rows, user, id) && VisibleTo(r, user) && NatToString(r.id) == id ==> r.read == 1
  {
    var rows' := SetRead(rows, user, id);
    forall r | r in rows' && VisibleTo(r, user) && NatToString(r.id) == id ensures r.read == 1 {
      var k :| 0 <= k < |rows'| && rows'[k] == r;
      assert Matches(rows[k], user, id);
    }
  }

  /** Marking a due-soon reminder read succeeds and makes its key one of the caller's
      dismissed keys, so the reminder shows as read from then on. */
  lemma MarkDueSoonRead(t: MessageTables, user: int, n: nat)
    ensures var (t', status) := MarkRead(t, user, ReminderId(DueSoonPrefix, n));
      status == 200 && ReminderId(DueSoonPrefix, n) in DismissedKeys(t'.dismissed, user)
  {
    DueSoonIdSplit(n);
    DueSoonIdRoundTrip(n);
    var id := ReminderId(DueSoonPrefix, n);
    var row := DismissedRow(user, Some(NatToString(n)), "due_soon");
    var t' := MarkRead(t, user, id).0;
    assert row in t'.dismissed;
    assert DismissedKey(row) == id;
    var us := UserDismissed(t'.dismissed, user);
    assert row in us;
    var k :| 0 <= k < |us| && us[k] == row;
  }

  /** As written, an overdue reminder can be neither marked read (its id has two
      pieces: 400) nor dismissed by deleting it (the row stored has type
      `overdue_<n>` and no loan id, so its key `overdue_<n>_null` is not the id):
      the reminder stays unread. */
  lemma OverdueNeverRead(t: MessageTables, user: int, n: nat)
    ensures MarkRead(t, user, ReminderId(OverduePrefix, n)) == (t, 400)
    ensures var t' := Delete(t, user, ReminderId(OverduePrefix, n)).0;
      (ReminderId(OverduePrefix, n) in DismissedKeys(t'.dismissed, user)
       <==> ReminderId(OverduePrefix, n) in DismissedKeys(t.dismissed, user))
  {
    OverdueIdSplit(n);
    var id := ReminderId(OverduePrefix, n);
    var row := DismissedRow(user, None, id);
    assert DismissedKey(row) == id + "_null";
    assert |DismissedKey(row)| != |id|;
    var t' := Delete(t, user, id).0;
    assert t'.dismissed == t.dismissed + [row];
    FilterSnoc(t.dismissed, row, DismissedBy(user));
  }

  /** `markMessageAsRead` with the reminder id read by its prefix. */
  function MarkReadIntended(t: MessageTables, user: int, id: string): (MessageTables, int) {
    if id == "" then (t, 400)
    else match ParseReminderId(id)
      case Some((kind, loan)) =>
        var row := DismissedRow(user, Some(loan), kind);
        if row in t.dismissed then (t, 200) else (t.(dismissed := t.dismissed + [row]), 200)
      case None => MarkRead(t, user, id)
  }

  /** With the reminder id read by its prefix, marking either kind of reminder read
      succeeds and makes it read in the caller's list. */
  lemma MarkReminderReadIntended(t: MessageTables, user: int, prefix: string, n: nat)
    requires prefix == DueSoonPrefix || prefix == OverduePrefix
    ensures var (t', status) := MarkReadIntended(t, user, ReminderId(prefix, n));
      status == 200 && ReminderId(prefix, n) in DismissedKeys(t'.dismissed, user)
  {
    ParseReminderIdRoundTrip(n);
    var id := ReminderId(prefix, n);
    var (kind, loan) := ParseReminderId(id).value;
    var row := DismissedRow(user, Some(loan), kind);
    var t' := MarkReadIntended(t, user, id).0;
    assert row in t'.dismissed;
    assert DismissedKey(row) == id;
    var us := UserDismissed(t'.dismissed, user);
    assert row in us;
    var k :| 0 <= k < |us| && us[k] == row;
  }

  /** `createMessage` refuses a request missing any of the four fields and changes
      nothing; otherwise it appends one row, unread and not deleted, with a missing or
      zero loan id stored as NULL, and the row is in the user's list. */
  lemma CreateSpec(t: MessageTables, req: MessageRequest, now: int)
    ensures var (t', status) := Create(t, req, now);
      && (status == 400 <==> !Complete(req))
      && (status == 400 ==> t' == t)
      && (status == 201 ==>
            && |t'.rows| == |t.rows| + 1 && t'.rows[..|t.rows|] == t.rows
            && var m := t'.rows[|t.rows|];
               m.userId == req.userId.value && m.read == 0 && !m.deleted
               && (m.loanId.None? <==> req.loanId.None? || req.loanId == Some(0))
               && !StoredMessageOf(m).read)
  {
  }

  // ---------------------------------------------------------------- the loops of getUserMessages

  /** The `forEach` that fills the lookup table of dismissed keys. */
  method CollectKeys(readRows: seq<DismissedRow>) returns (keys: set<string>)
    ensures keys == KeysOf(readRows)
    ensures forall k :: k in keys <==> exists d :: d in readRows && DismissedKey(d) == k
  {
    keys := {};
    for i := 0 to |readRows|
      invariant keys == KeysOf(readRows[..i])
    {
      assert readRows[..i + 1][..i] == readRows[..i];
      keys := keys + {DismissedKey(readRows[i])};
    }
    assert readRows[..|readRows|] == readRows;
  }

  /** The `forEach` that pushes one due-soon reminder per query row. */
  method PushDueSoon(head: seq<Message>, rows: seq<ReminderRow>, keys: set<string>, now: int)
    returns (messages: seq<Message>)
    ensures messages == head + DueSoonMessages(rows, keys, now)
  {
    messages := head;
    for i := 0 to |rows|
      invariant messages == head + DueSoonMessages(rows[..i], keys, now)
    {
      DueSoonSnoc(rows, i, keys, now);
      messages := messages + [DueSoonMessage(rows[i], keys, now)];
    }
    assert rows[..|rows|] == rows;
  }

  /** The `forEach` that pushes one overdue reminder per query row. */
  method PushOverdue(head: seq<Message>, rows: seq<ReminderRow>, keys: set<string>, now: int)
    returns (messages: seq<Message>)
    ensures messages == head + OverdueMessages(rows, keys, now)
  {
    messages := head;
    for i := 0 to |rows|
      invariant messages == head + OverdueMessages(rows[..i], keys, now)
    {
      OverdueSnoc(rows, i, keys, now);
      messages := messages + [OverdueMessage(rows[i], keys, now)];
    }
    assert rows[..|rows|] == rows;
  }

  /** One more row gives one more due-soon reminder at the end. */
  lemma DueSoonSnoc(rows: seq<ReminderRow>, i: int, keys: set<string>, now: int)
    requires 0 <= i < |rows|
    ensures DueSoonMessages(rows[..i + 1], keys, now) == DueSoonMessages(rows[..i], keys, now) + [DueSoonMessage(rows[i], keys, now)]
  {
    assert rows[..i + 1][..i] == rows[..i];
  }

  /** One more row gives one more overdue reminder at the end. */
  lemma OverdueSnoc(rows: seq<ReminderRow>, i: int, keys: set<string>, now: int)
    requires 0 <= i < |rows|
    ensures OverdueMessages(rows[..i + 1], keys, now) == OverdueMessages(rows[..i], keys, now) + [OverdueMessage(rows[i], keys, now)]
  {
    assert rows[..i + 1][..i] == rows[..i];
  }

  /** The `forEach` that pushes the stored messages. */
  method PushStored(head: seq<Message>, stored: seq<StoredMessage>) returns (messages: seq<Message>)
    ensures messages == head + StoredMessages(stored)
  {
    messages := head;
    for i := 0 to |stored|
      invariant messages == head + StoredMessages(stored[..i])
    {
      assert stored[..i + 1][..i] == stored[..i];
      messages := messages + [StoredMessageOf(stored[i])];
    }
    assert stored[..|stored|] == stored;
  }

  // ---------------------------------------------------------------- the tables as an object

  class MessageStore {
    var rows: seq<StoredMessage>
    var dismissed: seq<DismissedRow>
    var nextId: nat

    function Tables(): MessageTables
      reads this
    {
      MessageTables(rows, dismissed, nextId)
    }

    constructor ()
      ensures Tables() == MessageTables([], [], 1)
    {
      rows := [];
      dismissed := [];
      nextId := 1;
    }

    /** `getUserMessages`: builds the lookup table of dismissed keys, then pushes the
        due-soon reminders, the overdue reminders and the stored messages, and counts
        the unread ones. */
    method GetUserMessages(lib: LibraryState, user: int, today: int, now: int)
      returns (messages: seq<Message>, unreadCount: nat)
      ensures messages == UserMessages(Tables(), lib, user, today, now)
      ensures unreadCount == Count(messages, Unread)
    {
      var dueSoon := DueSoonRows(lib.loans, lib.books, user, today);
      var overdue := OverdueRows(lib.loans, lib.books, user, today);
      var stored := StoredFor(rows, user);
      var readRows := UserDismissed(dismissed, user);

      var keys := CollectKeys(readRows);
      assert keys == DismissedKeys(dismissed, user);
      var a := DueSoonMessages(dueSoon, keys, now);
      var b := OverdueMessages(overdue, keys, now);
      var c := StoredMessages(stored);
      messages := PushDueSoon([], dueSoon, keys, now);
      assert messages == a;
      messages := PushOverdue(messages, overdue, keys, now);
      assert messages == a + b;
      messages := PushStored(messages, stored);
      assert messages == a + b + c;
      unreadCount := Count(messages, Unread);
    }

    method DeleteMessage(user: int, id: string) returns (status: int)
      modifies this
      ensures (Tables(), status) == Delete(old(Tables()), user, id)
    {
      if IsReminderId(id) {
        var (kind, loan) := SplitReminderId(id);
        dismissed := dismissed + [DismissedRow(user, loan, kind)];
        return 200;
      }
      rows := SoftDelete(rows, user, id);
      return 200;
    }

    method MarkMessageAsRead(user: int, id: string) returns (status: int)
      modifies this
      ensures (Tables(), status) == MarkRead(old(Tables()), user, id)
    {
      if id == "" {
        return 400;
      }
      if IsReminderId(id) {
        var parts := Split(id, '_');
        if |parts| < 3 {
          return 400;
        }
        var row := DismissedRow(user, Some(parts[2]), parts[0] + "_" + parts[1]);
        if row !in dismissed {
          dismissed := dismissed + [row];
        }
        return 200;
      }
      var found := false;
      for i := 0 to |rows|
        invariant found <==> exists k :: 0 <= k < i && Matches(rows[k], user, id)
      {
        if Matches(rows[i], user, id) {
          found := true;
        }
      }
      if !found {
        return 404;
      }
      rows := SetRead(rows, user, id);
      return 200;
    }

    /** `markMessageAsRead` with the reminder id read by its prefix (see `MarkReadIntended`). */
    method MarkMessageAsReadIntended(user: int, id: string) returns (status: int)
      modifies this
      ensures (Tables(), status) == MarkReadIntended(old(Tables()), user, id)
    {
      if id == "" {
        return 400;
      }
      var parsed := ParseReminderId(id);
      if parsed.Some? {
        var row := DismissedRow(user, Some(parsed.value.1), parsed.value.0);
        if row !in dismissed {
          dismissed := dismissed + [row];
        }
        return 200;
      }
      status := MarkMessageAsRead(user, id);
    }

    method CreateMessage(req: MessageRequest, now: int) returns (status: int, messageId: nat)
      modifies this
      ensures (Tables(), status) == Create(old(Tables()), req, now)
      ensures status == 201 ==> messageId == old(nextId)
    {
      if !Complete(req) {
        return 400, 0;
      }
      messageId := nextId;
      rows := rows + [StoredMessage(nextId, req.userId.value, req.kind.value, req.title.value,
                                    req.content.value, LoanOrNull(req.loanId), now, 0, false)];
      nextId := nextId + 1;
      status := 201;
    }
  }
}
