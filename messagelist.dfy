/** The message list component: the order messages are shown in, and what each row
    shows (icon, time, unread mark). Drawing the rows is left out. */
module MessageList {
  import opened Base
  import opened Strings
  import opened Sorting
  import opened RelativeTime

  /** A message as the component holds it; `kind` and `text` may be absent. */
  datatype Item = Item(id: Id, kind: Option<string>, title: string, text: Option<string>, read: bool, createdAt: Stamp)

  /** The instant the comparator reads, `createdAt || Date.now()`: a message without a
      timestamp counts as written now. */
  function Instant(m: Item, now: int): int {
    match m.createdAt
    case At(ms) => ms
    case _ => now
  }

  /** The comparator as a key: unread before read, then newest first. */
  function ReadThenNewest(now: int): Item -> Key {
    (m: Item) => Key(if m.read then 1 else 0, -Instant(m, now))
  }

  /** `[...this.messages].sort(...)`: a sorted copy, holding the same messages, every
      unread one before every read one, and newer before older among those with the
      same read state. */
  function SortMessages(ms: seq<Item>, now: int): (r: seq<Item>)
    ensures multiset(r) == multiset(ms)
    ensures forall i, j :: 0 <= i < j < |r| ==> !(r[i].read && !r[j].read)
    ensures forall i, j :: 0 <= i < j < |r| && r[i].read == r[j].read ==> Instant(r[i], now) >= Instant(r[j], now)
  {
    var r := SortBy(ms, ReadThenNewest(now));
    assert forall i, j :: 0 <= i < j < |r| ==> KeyLe(ReadThenNewest(now)(r[i]), ReadThenNewest(now)(r[j]));
    r
  }

  const MessageKinds: seq<string> := ["due_soon", "overdue", "borrow_success", "return_success", "penalty"]

  /** `getMessageIcon`: a fixed icon for each of the five known kinds, and an envelope
      for any other or a missing kind. */
  function MessageIcon(kind: Option<string>): (icon: string)
    ensures icon == "envelope" <==> kind.None? || kind.value !in MessageKinds
    ensures kind == Some("due_soon") ==> icon == "exclamation-circle"
    ensures kind == Some("overdue") ==> icon == "exclamation-triangle"
    ensures kind == Some("borrow_success") ==> icon == "check-circle"
    ensures kind == Some("return_success") ==> icon == "undo"
    ensures kind == Some("penalty") ==> icon == "dollar-sign"
  {
    match kind
    case None => "envelope"
    case Some(k) =>
      if k == "due_soon" then "exclamation-circle"
      else if k == "overdue" then "exclamation-triangle"
      else if k == "borrow_success" then "check-circle"
      else if k == "return_success" then "undo"
      else if k == "penalty" then "dollar-sign"
      else "envelope"
  }

  /** What one row shows: the id, the `data-type` (the kind, or `default`), whether it is
      marked unread (only those rows react to a click by marking read), the icon, the
      title, the text (empty when absent) and the relative time. */
  datatype Row = Row(id: Id, kindAttr: string, unread: bool, icon: string, title: string, text: string, time: string)

  function RowOf(m: Item, now: int): Row {
    Row(m.id, if Truthy(m.kind) then m.kind.value else "default", !m.read, MessageIcon(m.kind), m.title,
        if m.text.Some? then m.text.value else "", MessageTime(m.createdAt, now))
  }

  /** The component's output: the "No messages" placeholder, or the rows. */
  datatype View = NoMessages | Rows(rows: seq<Row>)

  /** `render`: the placeholder exactly when the list is missing or empty; otherwise one
      row per message, unread rows first. */
  function Render(ms: Option<seq<Item>>, now: int): (v: View)
    ensures v.NoMessages? <==> ms.None? || ms.value == []
    ensures v.Rows? ==> |v.rows| == |ms.value|
    ensures v.Rows? ==> forall i :: 0 <= i < |v.rows| ==> v.rows[i] == RowOf(SortMessages(ms.value, now)[i], now)
    ensures v.Rows? ==> forall i, j :: 0 <= i < j < |v.rows| ==> !(!v.rows[i].unread && v.rows[j].unread)
  {
    if ms.None? || ms.value == [] then NoMessages
    else Rows(MapSeq(SortMessages(ms.value, now), m => RowOf(m, now)))
  }

  /** Every message of a non-empty list gets its row. */
  lemma RenderShowsEvery(ms: seq<Item>, now: int, m: Item)
    requires m in ms
    ensures Render(Some(ms), now).Rows?
    ensures RowOf(m, now) in Render(Some(ms), now).rows
  {
    var sorted := SortMessages(ms, now);
    assert m in multiset(sorted);
    var i :| 0 <= i < |sorted| && sorted[i] == m;
    assert Render(Some(ms), now).rows[i] == RowOf(m, now);
  }
}
