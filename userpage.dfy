/** The reader's page: searching and filtering the catalogue, grouping it by genre, the
    genre drop-down, and the page's own copy of the user's messages, which it updates
    before the server answers. Drawing and requests are left out. */
module UserPage {
  import opened Base
  import opened Strings
  import opened Sorting
  import opened Catalog
  import MessageList

  // ---------------------------------------------------------------- search and filter

  /** The search box's value, lower-cased and trimmed. */
  function SearchTerm(value: string): string {
    Trim(ToLower(value))
  }

  /** `field && field.toLowerCase().includes(term)`. */
  predicate FieldIncludes(f: Option<string>, term: string) {
    Truthy(f) && Includes(ToLower(f.value), term)
  }

  predicate MatchesSearch(b: ListedBook, term: string) {
    FieldIncludes(b.title, term) || FieldIncludes(b.author, term) || FieldIncludes(b.isbn, term)
  }

  /** The genre filter ignores case and drops books without a genre. */
  predicate MatchesGenre(b: ListedBook, genre: string) {
    Truthy(b.genre) && ToLower(b.genre.value) == ToLower(genre)
  }

  predicate GenreSelected(genre: string) {
    genre != "" && genre != "all"
  }

  /** A book passes both filters that apply. */
  predicate Shown(b: ListedBook, search: string, genre: string) {
    (SearchTerm(search) != "" ==> MatchesSearch(b, SearchTerm(search)))
    && (GenreSelected(genre) ==> MatchesGenre(b, genre))
  }

  /** The test "passes both filters that apply". */
  function ShownBy(search: string, genre: string): ListedBook -> bool {
    b => Shown(b, search, genre)
  }

  /** `filterBooks`: the search filter when the term is not empty, then the genre filter
      when a genre is chosen. The result is one filter by `Shown`: exactly the books both
      filters accept, in catalogue order, and the whole catalogue when neither applies. */
  function FilterBooks(all: seq<ListedBook>, search: string, genre: string): (r: seq<ListedBook>)
    ensures r == Filter(all, ShownBy(search, genre))
    ensures IsSubsequence(r, all)
    ensures forall b :: b in r <==> b in all && Shown(b, search, genre)
    ensures SearchTerm(search) == "" && !GenreSelected(genre) ==> r == all
  {
    var term := SearchTerm(search);
    var p := (b: ListedBook) => MatchesSearch(b, term);
    var q := (b: ListedBook) => MatchesGenre(b, genre);
    var bySearch := if term != "" then Filter(all, p) else all;
    var r := if GenreSelected(genre) then Filter(bySearch, q) else bySearch;
    IsSubsequenceRefl(all);
    if term != "" && GenreSelected(genre) then
      FilterThenFilter(all, p, q, ShownBy(search, genre));
      r
    else if term != "" then
      FilterSameTest(all, p, ShownBy(search, genre));
      r
    else if GenreSelected(genre) then
      FilterSameTest(all, q, ShownBy(search, genre));
      r
    else
      FilterAll(all, ShownBy(search, genre));
      r
  }

  lemma {:induction false} IsSubsequenceRefl<T>(s: seq<T>)
    ensures IsSubsequence(s, s)
    decreases |s|
  {
    if s != [] {
      IsSubsequenceRefl(s[1..]);
    }
  }

  // ---------------------------------------------------------------- grouping

  /** The heading a book is listed under: its genre, or "Uncategorized". */
  function GroupKey(b: ListedBook): string {
    if Truthy(b.genre) then b.genre.value else "Uncategorized"
  }

  /** The names an empty object literal inherits from `Object.prototype` (section 20.1.3
      of ECMA-262 and its Annex B.2.2). Looking one of them up in `booksByGenre` finds
      the inherited member, which is truthy and has no `push`. */
  const ObjectPrototypeNames: set<string> := {
    "constructor", "hasOwnProperty", "isPrototypeOf", "propertyIsEnumerable",
    "toLocaleString", "toString", "valueOf", "__proto__",
    "__defineGetter__", "__defineSetter__", "__lookupGetter__", "__lookupSetter__"}

  /** Some book's key is an inherited name, so the grouping loop throws a TypeError. */
  predicate ThrowsAtPush(books: seq<ListedBook>) {
    exists b :: b in books && GroupKey(b) in ObjectPrototypeNames
  }

  function HasKey(k: string): ListedBook -> bool {
    (b: ListedBook) => GroupKey(b) == k
  }

  /** The `booksByGenre` dictionary after the books of `books` were pushed in turn. */
  function GroupsOf(books: seq<ListedBook>): map<string, seq<ListedBook>>
    decreases |books|
  {
    if books == [] then map[]
    else
      var g := GroupsOf(books[..|books| - 1]);
      var b := books[|books| - 1];
      var k := GroupKey(b);
      g[k := (if k in g then g[k] else []) + [b]]
  }

  /** Every book is in exactly one group, the one of its key, and each group holds the
      books of its key in catalogue order. */
  lemma GroupsOfSpec(books: seq<ListedBook>)
    ensures forall k :: k in GroupsOf(books) <==> exists b :: b in books && GroupKey(b) == k
    ensures forall k :: k in GroupsOf(books) ==> GroupsOf(books)[k] == Filter(books, HasKey(k))
  {
    GroupsOfKeys(books);
    GroupsOfGroups(books);
  }

  /** The keys of the dictionary are exactly the keys of the books. */
  lemma {:induction false} GroupsOfKeys(books: seq<ListedBook>)
    ensures forall k :: k in GroupsOf(books) <==> exists b :: b in books && GroupKey(b) == k
    decreases |books|
  {
    if books != [] {
      var front := books[..|books| - 1];
      var b := books[|books| - 1];
      assert books == front + [b];
      GroupsOfKeys(front);
      var g := GroupsOf(front);
      forall k ensures k in GroupsOf(books) <==> exists x :: x in books && GroupKey(x) == k {
        if k in g {
          var x :| x in front && GroupKey(x) == k;
          assert x in books;
        }
        if exists x :: x in books && GroupKey(x) == k {
          var x :| x in books && GroupKey(x) == k;
          if x != b {
            assert x in front;
          }
        }
      }
    }
  }

  /** Each group holds the books of its key in catalogue order. */
  lemma {:induction false} GroupsOfGroups(books: seq<ListedBook>)
    ensures forall k :: k in GroupsOf(books) ==> GroupsOf(books)[k] == Filter(books, HasKey(k))
    decreases |books|
  {
    if books != [] {
      var front := books[..|books| - 1];
      var b := books[|books| - 1];
      assert books == front + [b];
      GroupsOfKeys(front);
      GroupsOfGroups(front);
      var g := GroupsOf(front);
      forall k | k in GroupsOf(books) ensures GroupsOf(books)[k] == Filter(books, HasKey(k)) {
        FilterSnoc(front, b, HasKey(k));
        if k !in g {
          assert k == GroupKey(b);
          NoKeyEmpty(front, k);
        }
      }
    }
  }

  lemma NoKeyEmpty(front: seq<ListedBook>, k: string)
    requires !exists x :: x in front && GroupKey(x) == k
    ensures Filter(front, HasKey(k)) == []
  {
    var f := Filter(front, HasKey(k));
    assert forall x :: x !in f;
  }

  /** The grouping loop of `displayBooks`. A key that is an inherited name is found
      truthy, so no array is made for it, and the `push` on the inherited member throws:
      `None`. Otherwise the dictionary is `GroupsOf`. */
  method GroupByGenre(books: seq<ListedBook>) returns (groups: Option<map<string, seq<ListedBook>>>)
    ensures groups.None? <==> ThrowsAtPush(books)
    ensures groups.Some? ==> groups.value == GroupsOf(books)
    ensures groups.Some? ==> forall k :: k in groups.value ==> groups.value[k] == Filter(books, HasKey(k))
  {
    var g: map<string, seq<ListedBook>> := map[];
    var i := 0;
    while i < |books|
      invariant 0 <= i <= |books|
      invariant g == GroupsOf(books[..i])
      invariant forall j :: 0 <= j < i ==> GroupKey(books[j]) !in ObjectPrototypeNames
    {
      var book := books[i];
      var genre := GroupKey(book);
      if genre in ObjectPrototypeNames {
        assert book in books;
        return None;
      }
      if genre !in g {
        g := g[genre := []];
      }
      g := g[genre := g[genre] + [book]];
      assert books[..i + 1][..i] == books[..i];
      i := i + 1;
    }
    assert books[..i] == books;
    GroupsOfSpec(books);
    groups := Some(g);
  }

  /** A one-book catalogue whose genre is "constructor": the loop throws, although the
      intended grouping (`GroupsOf`) has the book under that heading. */
  lemma PrototypeGenreExample()
    ensures var books := [ListedBook(1, Some("t"), Some("a"), None, Some("constructor"), 1)];
      ThrowsAtPush(books) && GroupsOf(books) == map["constructor" := books]
  {
    var books := [ListedBook(1, Some("t"), Some("a"), None, Some("constructor"), 1)];
    assert books[0] in books && GroupKey(books[0]) == "constructor";
    assert "constructor" in ObjectPrototypeNames;
    assert books[..|books| - 1] == [];
    assert GroupsOf([]) == map[];
    assert [] + [books[0]] == books;
  }

  /** What `displayBooks` shows: the "No books found" notice, or one section per key. */
  datatype Shelf = NoBooksFound | Sections(sections: seq<(string, seq<ListedBook>)>) | TypeErrorThrown

  function KeysOf(books: seq<ListedBook>): (r: seq<string>)
    ensures forall k :: k in r <==> exists b :: b in books && GroupKey(b) == k
  {
    var r := seq(|books|, i requires 0 <= i < |books| => GroupKey(books[i]));
    assert forall i :: 0 <= i < |books| ==> r[i] == GroupKey(books[i]);
    r
  }

  /** The sections of a drawn catalogue: headings strictly sorted, exactly the keys of
      the books, each heading with the books of that key in catalogue order. */
  ghost predicate ShowsGroups(sections: seq<(string, seq<ListedBook>)>, books: seq<ListedBook>) {
    var keys := seq(|sections|, s requires 0 <= s < |sections| => sections[s].0);
    && StrictlySorted(keys)
    && (forall k :: k in keys <==> exists b :: b in books && GroupKey(b) == k)
    && (forall s :: 0 <= s < |sections| ==> sections[s].1 == Filter(books, HasKey(sections[s].0)))
  }

  /** The sections drawn from the grouped dictionary, one per sorted key. */
  function SectionsOf(books: seq<ListedBook>, groups: map<string, seq<ListedBook>>): (sections: seq<(string, seq<ListedBook>)>)
    requires groups == GroupsOf(books)
    ensures ShowsGroups(sections, books)
  {
    GroupsOfSpec(books);
    var keys := SortedUnique(KeysOf(books));
    assert forall k :: k in keys ==> k in groups;
    var sections := seq(|keys|, s requires 0 <= s < |keys| => (keys[s], groups[keys[s]]));
    assert seq(|sections|, s requires 0 <= s < |sections| => sections[s].0) == keys;
    sections
  }

  /** `displayBooks`: the notice exactly for a missing or empty list; a TypeError, with
      nothing drawn, exactly when some key is an inherited name; otherwise the keys in
      sorted order without repeats, each with the books of that key in order. */
  method DisplayBooks(books: Option<seq<ListedBook>>) returns (shelf: Shelf)
    ensures shelf.NoBooksFound? <==> books.None? || books.value == []
    ensures shelf.TypeErrorThrown? <==> books.Some? && books.value != [] && ThrowsAtPush(books.value)
    ensures shelf.Sections? ==> ShowsGroups(shelf.sections, books.value)
  {
    if books.None? || books.value == [] {
      return NoBooksFound;
    }
    var grouped := GroupByGenre(books.value);
    if grouped.None? {
      return TypeErrorThrown;
    }
    shelf := Sections(SectionsOf(books.value, grouped.value));
  }


  /** `books.filter(b => b.genre).map(b => b.genre)`. */
  function GenresOf(books: seq<ListedBook>): (r: seq<string>)
    ensures forall g :: g in r <==> exists b :: b in books && Truthy(b.genre) && b.genre.value == g
    decreases |books|
  {
    if books == [] then []
    else
      var rest := GenresOf(books[1..]);
      assert forall b :: b in books[1..] ==> b in books;
      assert forall b :: b in books ==> b == books[0] || b in books[1..];
      (if Truthy(books[0].genre) then [books[0].genre.value] else []) + rest
  }

  /** `populateGenreFilter`: nothing changes for an empty catalogue; otherwise the options
      are `all` followed by the genres of the books that have one, sorted, without repeats. */
  function PopulateGenreFilter(books: seq<ListedBook>): (options: Option<seq<string>>)
    ensures options.None? <==> books == []
    ensures options.Some? ==> |options.value| >= 1 && options.value[0] == "all"
    ensures options.Some? ==> StrictlySorted(options.value[1..])
    ensures options.Some? ==>
      forall g :: g in options.value[1..] <==> exists b :: b in books && Truthy(b.genre) && b.genre.value == g
  {
    if books == [] then None
    else
      var r := ["all"] + SortedUnique(GenresOf(books));
      assert r[1..] == SortedUnique(GenresOf(books));
      Some(r)
  }

  // ---------------------------------------------------------------- the page's messages

  /** `String(id)`. */
  function IdString(id: Id): string {
    match id
    case Num(n) => IntToString(n)
    case Text(s) => s
  }

  /** `isSameId`: the same value, or the same text once both are turned into strings. */
  predicate IsSameId(a: Id, b: Id) {
    a == b || IdString(a) == IdString(b)
  }

  /** `isSameId` is true exactly when the string forms agree; it is therefore
      reflexive and symmetric, tells numbers apart, and equates a number with its digits. */
  lemma IsSameIdSpec(a: Id, b: Id)
    ensures IsSameId(a, b) <==> IdString(a) == IdString(b)
    ensures IsSameId(a, a)
    ensures IsSameId(a, b) <==> IsSameId(b, a)
    ensures a.Num? && b.Num? ==> (IsSameId(a, b) <==> a.n == b.n)
    ensures a.Num? ==> IsSameId(a, Text(IntToString(a.n)))
  {
    if a.Num? && b.Num? {
      IntToStringInjective(a.n, b.n);
    }
  }

  predicate Unread(m: MessageList.Item) {
    !m.read
  }

  /** `countUnreadMessages`. */
  function CountUnread(ms: seq<MessageList.Item>): (n: nat)
    ensures n <= |ms|
    ensures n == |Filter(ms, (m: MessageList.Item) => !m.read)|
  {
    CountIsFilterLength(ms, (m: MessageList.Item) => !m.read);
    Count(ms, (m: MessageList.Item) => !m.read)
  }

  /** `findIndex` with `isSameId`: the first message whose id matches. */
  function FirstMatch(ms: seq<MessageList.Item>, id: Id): (r: Option<nat>)
    ensures r.Some? ==> r.value < |ms| && IsSameId(ms[r.value].id, id)
    ensures r.Some? ==> forall k :: 0 <= k < r.value ==> !IsSameId(ms[k].id, id)
    ensures r.None? ==> forall k :: 0 <= k < |ms| ==> !IsSameId(ms[k].id, id)
    decreases |ms|
  {
    if ms == [] then None
    else if IsSameId(ms[0].id, id) then Some(0)
    else match FirstMatch(ms[1..], id)
      case None => None
      case Some(k) => Some(k + 1)
  }

  /** The local part of `markMessageAsRead`: the first matching message becomes read. */
  function MarkLocal(ms: seq<MessageList.Item>, id: Id): (seq<MessageList.Item>, bool) {
    match FirstMatch(ms, id)
    case None => (ms, false)
    case Some(i) => (ms[i := ms[i].(read := true)], true)
  }

  /** Only the first matching message changes, and only its `read`; the unread count
      drops by one exactly when that message was unread. */
  lemma MarkLocalSpec(ms: seq<MessageList.Item>, id: Id)
    ensures var (ms', found) := MarkLocal(ms, id);
      && |ms'| == |ms|
      && (found <==> exists k :: 0 <= k < |ms| && IsSameId(ms[k].id, id))
      && (found ==>
            exists i :: (0 <= i < |ms| && IsSameId(ms[i].id, id) && ms'[i] == ms[i].(read := true)
              && (forall k :: 0 <= k < |ms| && k != i ==> ms'[k] == ms[k])
              && CountUnread(ms') == CountUnread(ms) - (if ms[i].read then 0 else 1)))
      && (!found ==> ms' == ms)
  {
    match FirstMatch(ms, id)
    case None =>
    case Some(i) =>
      CountUpdate(ms, i, ms[i].(read := true));
  }

  lemma CountUpdate(ms: seq<MessageList.Item>, i: nat, x: MessageList.Item)
    requires i < |ms|
    ensures CountUnread(ms[i := x]) == CountUnread(ms) - (if ms[i].read then 0 else 1) + (if x.read then 0 else 1)
  {
    var p := (m: MessageList.Item) => !m.read;
    var u := ms[i := x];
    assert ms == ms[..i] + [ms[i]] + ms[i + 1..];
    assert u == ms[..i] + [x] + ms[i + 1..];
    CountAppend(ms[..i] + [ms[i]], ms[i + 1..], p);
    CountAppend(ms[..i], [ms[i]], p);
    CountAppend(ms[..i] + [x], ms[i + 1..], p);
    CountAppend(ms[..i], [x], p);
    CountIsFilterLength(ms, p);
    CountIsFilterLength(u, p);
  }

  /** The local part of `deleteMessage`: every matching message goes, the rest stay in
      order. */
  function DeleteLocal(ms: seq<MessageList.Item>, id: Id): seq<MessageList.Item> {
    Filter(ms, (m: MessageList.Item) => !IsSameId(m.id, id))
  }

  /** Deleting removes every match, keeps everything else in order, and lowers the unread
      count by the number of unread messages removed. */
  lemma {:induction false} DeleteLocalSpec(ms: seq<MessageList.Item>, id: Id)
    ensures IsSubsequence(DeleteLocal(ms, id), ms)
    ensures forall m :: m in DeleteLocal(ms, id) <==> m in ms && !IsSameId(m.id, id)
    ensures CountUnread(DeleteLocal(ms, id))
         == CountUnread(ms) - Count(ms, (m: MessageList.Item) => !m.read && IsSameId(m.id, id))
    decreases |ms|
  {
    var p := (m: MessageList.Item) => !m.read;
    var keep := (m: MessageList.Item) => !IsSameId(m.id, id);
    var both := (m: MessageList.Item) => !m.read && IsSameId(m.id, id);
    CountIsFilterLength(ms, p);
    CountIsFilterLength(DeleteLocal(ms, id), p);
    if ms != [] {
      DeleteLocalSpec(ms[1..], id);
      CountIsFilterLength(ms[1..], p);
      CountIsFilterLength(DeleteLocal(ms[1..], id), p);
      var rest := DeleteLocal(ms[1..], id);
      if keep(ms[0]) {
        assert DeleteLocal(ms, id) == [ms[0]] + rest;
        assert ([ms[0]] + rest)[1..] == rest;
      }
    }
  }

  /** The page's copy of the user's messages, which the handlers update before the
      server answers. */
  class MessageState {
    var messages: seq<MessageList.Item>

    constructor ()
      ensures messages == []
    {
      messages := [];
    }

    /** `countUnreadMessages`. */
    function UnreadCount(): nat
      reads this
    {
      CountUnread(messages)
    }

    /** `markMessageAsRead` on the local copy: true after marking the first match read;
        false, with the copy unchanged, when nothing matches (the page then refetches). */
    method MarkMessageAsRead(id: Id) returns (found: bool)
      modifies this
      ensures (messages, found) == MarkLocal(old(messages), id)
    {
      var index := FirstMatch(messages, id);
      if index.None? {
        return false;
      }
      var i := index.value;
      messages := messages[i := messages[i].(read := true)];
      found := true;
    }

    /** `deleteMessage` on the local copy: every match removed; true either way. */
    method DeleteMessage(id: Id) returns (ok: bool)
      modifies this
      ensures messages == DeleteLocal(old(messages), id)
      ensures ok
    {
      messages := Filter(messages, (m: MessageList.Item) => !IsSameId(m.id, id));
      ok := true;
    }
  }
}
