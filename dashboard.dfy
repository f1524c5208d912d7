/** The reader's dashboard script: the genre drop-down that remembers every genre it
    has seen, the exact-genre filter, when typing in the search box triggers a search,
    the badge of a loan, the notification counter after one is marked read, and the
    profile fields kept in local storage. Drawing and requests are left out. */
module Dashboard {
  import opened Base
  import opened Strings
  import opened Sorting
  import opened Catalog
  import AdminLoans

  // ---------------------------------------------------------------- genres

  /** The genres a list of books contributes: those present and not empty. */
  ghost predicate GenreOf(books: seq<ListedBook>, g: string) {
    exists b :: b in books && Truthy(b.genre) && b.genre.value == g
  }

  predicate NoDuplicates(s: seq<string>) {
    forall i, j :: 0 <= i < j < |s| ==> s[i] != s[j]
  }

  /** The drop-down and the `availableGenres` set behind it. */
  class GenreFilter {
    /** `availableGenres`, in insertion order. */
    var genres: seq<string>
    /** The option values: `""` for "All Genres", then the genres sorted. */
    var options: seq<string>
    /** The drop-down's value. */
    var selected: string

    ghost predicate Valid()
      reads this
    {
      && NoDuplicates(genres)
      && options == [""] + SortedUnique(genres)
      && (selected == "" || selected in genres)
    }

    constructor ()
      ensures Valid() && genres == [] && selected == ""
    {
      genres := [];
      options := [""] + SortedUnique([]);
      selected := "";
    }

    /** `populateGenreFilter`: adds the genres of `books` to the set, rebuilds the options
        and keeps the previous choice when it is still an option (it always is, since the
        set only grows); a value that is not an option leaves nothing chosen. */
    method Populate(books: seq<ListedBook>)
      requires Valid()
      modifies this
      ensures Valid()
      ensures forall g :: g in genres <==> g in old(genres) || GenreOf(books, g)
      ensures |old(genres)| <= |genres| && old(genres) == genres[..|old(genres)|]
      ensures selected == old(selected)
    {
      var i := 0;
      while i < |books|
        invariant 0 <= i <= |books|
        invariant NoDuplicates(genres)
        invariant |old(genres)| <= |genres| && old(genres) == genres[..|old(genres)|]
        invariant selected == old(selected)
        invariant forall g :: g in genres <==> g in old(genres) || GenreOf(books[..i], g)
      {
        var book := books[i];
        if Truthy(book.genre) && book.genre.value !in genres {
          assert (genres + [book.genre.value])[..|old(genres)|] == genres[..|old(genres)|];
          genres := genres + [book.genre.value];
        }
        assert books[..i + 1] == books[..i] + [book];
        i := i + 1;
      }
      assert books[..i] == books;
      var current := selected;
      options := [""] + SortedUnique(genres);
      selected := "";
      if current != "" {
        selected := if current in genres then current else "";
      }
    }

    /** The reader picks one of the options. */
    method Select(value: string)
      requires Valid() && value in options
      modifies this
      ensures Valid() && selected == value
      ensures genres == old(genres) && options == old(options)
    {
      assert value == "" || value in SortedUnique(genres);
      selected := value;
    }
  }

  /** What the genre filter shows: a notice that the chosen genre has no books, or books. */
  datatype BookView = NoneInGenre(genre: string) | Books(books: seq<ListedBook>)

  /** `filterBooks`: every book when nothing is chosen; otherwise the books whose genre is
      exactly the chosen one (case counts), in order, or the notice when there are none. */
  function FilterByGenre(all: seq<ListedBook>, selected: string): (v: BookView)
    ensures selected == "" ==> v == Books(all)
    ensures selected != "" ==> (v.NoneInGenre? <==> forall b :: b in all ==> b.genre != Some(selected))
    ensures v.NoneInGenre? ==> v.genre == selected
    ensures v.Books? && selected != "" ==>
      IsSubsequence(v.books, all) && forall b :: b in v.books <==> b in all && b.genre == Some(selected)
  {
    if selected == "" then Books(all)
    else
      var r := Filter(all, (b: ListedBook) => b.genre == Some(selected));
      if |r| == 0 then
        assert forall b :: b in all && b.genre == Some(selected) ==> b in r;
        NoneInGenre(selected)
      else
        assert r[0] in r;
        Books(r)
  }

  // ---------------------------------------------------------------- search box

  datatype SearchAction = SearchFor(term: string) | FetchAll | Ignore

  /** Typing in the search box: two or more code units after trimming search, nothing
      (only blanks) fetches every book, and a single one does nothing. */
  function SearchTrigger(value: string): (a: SearchAction)
    ensures a.SearchFor? <==> Utf16Length(Trim(value)) >= 2
    ensures a.SearchFor? ==> a.term == Trim(value)
    ensures a == FetchAll <==> AllSpace(value)
    ensures a == Ignore <==> Utf16Length(Trim(value)) == 1
  {
    var term := Trim(value);
    TrimEmptyIffBlank(value);
    if Utf16Length(term) >= 2 then SearchFor(term)
    else if Utf16Length(term) == 0 then FetchAll
    else Ignore
  }

  // ---------------------------------------------------------------- loan badge

  /** The badge and row colour of one of the reader's (unreturned) loans. */
  datatype LoanBadge = LoanBadge(caption: string, badgeClass: string, rowClass: string)

  function UserLoanBadge(isOverdue: bool, daysRemaining: int): LoanBadge {
    if isOverdue then
      LoanBadge("Overdue by " + NatToString(Abs(daysRemaining)) + " day(s)", "bg-danger", "table-danger")
    else if daysRemaining <= 2 then
      LoanBadge("Due soon (" + IntToString(daysRemaining) + " day(s))", "bg-warning", "table-warning")
    else LoanBadge(IntToString(daysRemaining) + " day(s) left", "bg-success", "")
  }

  /** The reader sees the same caption and colour as the admin listing shows for an
      unreturned loan, and the row is tinted exactly when the loan is not active. */
  lemma BadgeAgreesWithAdmin(isOverdue: bool, daysRemaining: int)
    ensures var s := AdminLoans.CalculateLoanStatus(AdminLoans.LoanView(false, isOverdue, daysRemaining));
      && UserLoanBadge(isOverdue, daysRemaining).caption == s.caption
      && UserLoanBadge(isOverdue, daysRemaining).badgeClass == s.badgeClass
      && (UserLoanBadge(isOverdue, daysRemaining).rowClass == "" <==> s.status == "active")
  {
  }

  // ---------------------------------------------------------------- notification counter

  /** The digits at the front of `s`. */
  function DigitPrefix(s: string): (d: string)
    ensures |d| <= |s| && d == s[..|d|] && AllDigits(d)
    ensures |d| == |s| || !IsDigit(s[|d|])
    decreases |s|
  {
    if s != [] && IsDigit(s[0]) then
      var rest := DigitPrefix(s[1..]);
      assert s[..1 + |rest|] == [s[0]] + s[1..][..|rest|];
      [s[0]] + rest
    else []
  }

  /** `parseInt` in base ten: blanks, an optional sign, then the longest run of digits;
      `None` (NaN) when there is none. */
  function ParseInt(s: string): Option<int> {
    ParseSigned(TrimStart(s))
  }

  /** After the blanks: a minus sign negates, a plus sign is skipped. */
  function ParseSigned(t: string): Option<int> {
    if t != [] && t[0] == '-' then
      match ParseDigits(t[1..])
      case Some(v) => Some(-(v as int))
      case None => None
    else if t != [] && t[0] == '+' then ParseDigits(t[1..])
    else ParseDigits(t)
  }

  /** The value of the leading run of digits, or `None` when there is none. */
  function ParseDigits(body: string): Option<nat> {
    var d := DigitPrefix(body);
    if d == [] then None else Some(DigitsValue(d))
  }

  lemma {:induction false} DigitPrefixAll(s: string)
    requires AllDigits(s)
    ensures DigitPrefix(s) == s
    decreases |s|
  {
    if s != [] {
      DigitPrefixAll(s[1..]);
      assert s == [s[0]] + s[1..];
    }
  }

  /** `parseInt` reads back what `String` wrote. */
  lemma ParseIntRoundTrip(n: int)
    ensures ParseInt(IntToString(n)) == Some(n)
  {
    if n < 0 {
      ParseNegative(n);
    } else {
      ParseNatural(n);
    }
  }

  lemma TrimStartKeeps(s: string)
    requires s != [] && !IsSpace(s[0])
    ensures TrimStart(s) == s
  {
  }

  lemma ParseNatural(n: int)
    requires n >= 0
    ensures ParseInt(IntToString(n)) == Some(n)
  {
    var s := NatToString(n);
    assert IntToString(n) == s;
    assert IsDigit(s[0]);
    TrimStartKeeps(s);
    DigitPrefixAll(s);
    NatToStringRoundTrip(n);
  }

  lemma ParseNegative(n: int)
    requires n < 0
    ensures ParseInt(IntToString(n)) == Some(n)
  {
    var m: nat := -n;
    var s := NatToString(m);
    var t := "-" + s;
    assert IntToString(n) == t;
    TrimStartKeeps(t);
    assert t[1..] == s;
    DigitPrefixAll(s);
    NatToStringRoundTrip(m);
  }

  /** The notification counter in the sidebar. */
  datatype Badge = Badge(text: string, visible: bool)

  /** After a notification is marked read: the count read from the text minus one when
      that is positive, else hidden with the text left as it was. */
  function Decremented(b: Badge): Badge {
    match ParseInt(b.text)
    case Some(n) => if n - 1 > 0 then Badge(IntToString(n - 1), b.visible) else b.(visible := false)
    case None => b.(visible := false)
  }

  /** From a counter showing `n`: `n - 1` while that is positive, hidden from one down. */
  lemma DecrementedCount(n: int, visible: bool)
    ensures n > 1 ==> Decremented(Badge(IntToString(n), visible)) == Badge(IntToString(n - 1), visible)
    ensures n <= 1 ==> Decremented(Badge(IntToString(n), visible)) == Badge(IntToString(n), false)
  {
    ParseIntRoundTrip(n);
  }

  /** Text with no number in it (NaN) hides the counter. */
  lemma NotANumberHides(b: Badge)
    requires forall i :: 0 <= i < |b.text| ==> !IsDigit(b.text[i])
    ensures Decremented(b) == b.(visible := false)
  {
    var t := TrimStart(b.text);
    NoDigitInSuffix(b.text, |b.text| - |t|);
    if t != [] {
      NoDigitInSuffix(t, 1);
      NoDigitNoValue(t[1..]);
    }
    NoDigitNoValue(t);
  }

  lemma NoDigitInSuffix(s: string, k: int)
    requires 0 <= k <= |s| && forall i :: 0 <= i < |s| ==> !IsDigit(s[i])
    ensures forall i :: 0 <= i < |s[k..]| ==> !IsDigit(s[k..][i])
  {
    forall i | 0 <= i < |s[k..]| ensures !IsDigit(s[k..][i]) {
      assert s[k..][i] == s[k + i];
    }
  }

  lemma NoDigitNoValue(s: string)
    requires forall i :: 0 <= i < |s| ==> !IsDigit(s[i])
    ensures ParseDigits(s) == None
  {
    if s != [] {
      assert !IsDigit(s[0]);
    }
  }


  class NotificationBadge {
    var text: string
    var visible: bool

    constructor (text: string, visible: bool)
      ensures this.text == text && this.visible == visible
    {
      this.text := text;
      this.visible := visible;
    }

    /** The counter update after a successful mark-as-read. */
    method MarkedOneRead()
      modifies this
      ensures Badge(text, visible) == Decremented(old(Badge(text, visible)))
    {
      var currentCount := ParseInt(text);
      if currentCount.Some? && currentCount.value - 1 > 0 {
        text := IntToString(currentCount.value - 1);
      } else {
        visible := false;
      }
    }
  }

  // ---------------------------------------------------------------- profile storage

  /** The user object the profile endpoint returns; any field may be missing. */
  datatype UserRecord = UserRecord(
    full_name: Option<string>, fullName: Option<string>, username: Option<string>, email: Option<string>,
    phone_number: Option<string>, phoneNumber: Option<string>, address: Option<string>, role: Option<string>)

  function Lookup(items: map<string, string>, key: string): Option<string> {
    if key in items then Some(items[key]) else None
  }

  /** `fieldsToStore`, in order: the name prefers `full_name`, then `fullName`, then
      `username`; the id is the one already stored; the role falls back to the stored one. */
  function ProfileEntries(u: UserRecord, items: map<string, string>): seq<(string, Option<string>)> {
    [("userName", Or(Or(u.full_name, u.fullName), u.username)),
     ("userEmail", u.email),
     ("userPhone", Or(u.phone_number, u.phoneNumber)),
     ("userAddress", u.address),
     ("userId", Lookup(items, "userId")),
     ("userRole", Or(u.role, Lookup(items, "userRole")))]
  }

  /** Local storage after `setItem` for each entry whose value is truthy, in order. */
  function Stored(items: map<string, string>, entries: seq<(string, Option<string>)>): map<string, string>
    decreases |entries|
  {
    if entries == [] then items
    else
      var m := Stored(items, entries[..|entries| - 1]);
      var e := entries[|entries| - 1];
      if Truthy(e.1) then m[e.0 := e.1.value] else m
  }

  predicate DistinctKeys(entries: seq<(string, Option<string>)>) {
    forall i, j :: 0 <= i < j < |entries| ==> entries[i].0 != entries[j].0
  }

  /** Each truthy entry is stored under its key; a key with no truthy entry keeps what it
      had (or stays absent). */
  lemma {:induction false} StoredSpec(items: map<string, string>, entries: seq<(string, Option<string>)>)
    requires DistinctKeys(entries)
    ensures forall i :: 0 <= i < |entries| && Truthy(entries[i].1) ==>
      entries[i].0 in Stored(items, entries) && Stored(items, entries)[entries[i].0] == entries[i].1.value
    ensures forall k :: (forall i :: 0 <= i < |entries| && entries[i].0 == k ==> !Truthy(entries[i].1)) ==>
      (k in Stored(items, entries) <==> k in items) && (k in items ==> Stored(items, entries)[k] == items[k])
    decreases |entries|
  {
    if entries != [] {
      var front := entries[..|entries| - 1];
      assert forall i :: 0 <= i < |front| ==> front[i] == entries[i];
      StoredSpec(items, front);
    }
  }

  /** The keys `storeProfileData` writes. */
  const ProfileKeys: seq<string> := ["userName", "userEmail", "userPhone", "userAddress", "userId", "userRole"]

  lemma ProfileEntriesDistinct(u: UserRecord, items: map<string, string>)
    ensures DistinctKeys(ProfileEntries(u, items))
    ensures forall i :: 0 <= i < 6 ==> ProfileEntries(u, items)[i].0 == ProfileKeys[i]
  {
  }

  /** `storeProfileData` stores the name by its order of preference, keeps the stored id
      as it was, and touches no other key. */
  lemma StoreProfileSpec(items: map<string, string>, u: UserRecord)
    ensures var r := Stored(items, ProfileEntries(u, items));
      && (Truthy(u.full_name) ==> "userName" in r && r["userName"] == u.full_name.value)
      && (!Truthy(u.full_name) && Truthy(u.fullName) ==> "userName" in r && r["userName"] == u.fullName.value)
      && (!Truthy(u.full_name) && !Truthy(u.fullName) && Truthy(u.username) ==>
            "userName" in r && r["userName"] == u.username.value)
      && (Truthy(u.email) ==> "userEmail" in r && r["userEmail"] == u.email.value)
      && (!Truthy(u.email) ==> ("userEmail" in r <==> "userEmail" in items))
      && (!Truthy(u.email) && "userEmail" in items ==> r["userEmail"] == items["userEmail"])
      && ("userId" in r <==> "userId" in items)
      && ("userId" in items ==> r["userId"] == items["userId"])
      && (forall k :: k !in ProfileKeys ==> (k in r <==> k in items) && (k in items ==> r[k] == items[k]))
  {
    StoreProfileName(items, u);
    StoreProfileKeeps(items, u);
    StoreProfileOthers(items, u);
  }

  lemma StoreProfileName(items: map<string, string>, u: UserRecord)
    ensures var r := Stored(items, ProfileEntries(u, items));
      && (Truthy(u.full_name) ==> "userName" in r && r["userName"] == u.full_name.value)
      && (!Truthy(u.full_name) && Truthy(u.fullName) ==> "userName" in r && r["userName"] == u.fullName.value)
      && (!Truthy(u.full_name) && !Truthy(u.fullName) && Truthy(u.username) ==>
            "userName" in r && r["userName"] == u.username.value)
  {
    var es := ProfileEntries(u, items);
    ProfileEntriesDistinct(u, items);
    StoredSpec(items, es);
    assert es[0].0 == "userName";
  }

  lemma StoreProfileKeeps(items: map<string, string>, u: UserRecord)
    ensures var r := Stored(items, ProfileEntries(u, items));
      && (Truthy(u.email) ==> "userEmail" in r && r["userEmail"] == u.email.value)
      && (!Truthy(u.email) ==> ("userEmail" in r <==> "userEmail" in items))
      && (!Truthy(u.email) && "userEmail" in items ==> r["userEmail"] == items["userEmail"])
      && ("userId" in r <==> "userId" in items)
      && ("userId" in items ==> r["userId"] == items["userId"])
  {
    var es := ProfileEntries(u, items);
    ProfileEntriesDistinct(u, items);
    StoredSpec(items, es);
    assert es[1].0 == "userEmail" && es[4].0 == "userId";
    if !Truthy(u.email) {
      assert forall i :: 0 <= i < |es| && es[i].0 == "userEmail" ==> i == 1;
    }
    if "userId" in items && items["userId"] != "" {
      assert Truthy(es[4].1);
    } else {
      assert forall i :: 0 <= i < |es| && es[i].0 == "userId" ==> i == 4;
    }
  }

  lemma StoreProfileOthers(items: map<string, string>, u: UserRecord)
    ensures var r := Stored(items, ProfileEntries(u, items));
      forall k :: k !in ProfileKeys ==> (k in r <==> k in items) && (k in items ==> r[k] == items[k])
  {
    var es := ProfileEntries(u, items);
    ProfileEntriesDistinct(u, items);
    StoredSpec(items, es);
  }

  /** The browser's local storage for the page. */
  class ProfileStorage {
    var items: map<string, string>

    constructor (items: map<string, string>)
      ensures this.items == items
    {
      this.items := items;
    }

    /** `storeProfileData`: nothing without a user; otherwise each truthy field is set. */
    method StoreProfileData(user: Option<UserRecord>)
      modifies this
      ensures user.None? ==> items == old(items)
      ensures user.Some? ==> items == Stored(old(items), ProfileEntries(user.value, old(items)))
    {
      if user.None? {
        return;
      }
      var fieldsToStore := ProfileEntries(user.value, items);
      var i := 0;
      while i < |fieldsToStore|
        invariant 0 <= i <= |fieldsToStore|
        invariant items == Stored(old(items), fieldsToStore[..i])
      {
        var (key, value) := fieldsToStore[i];
        if Truthy(value) {
          items := items[key := value.value];
        }
        assert fieldsToStore[..i + 1][..i] == fieldsToStore[..i];
        i := i + 1;
      }
      assert fieldsToStore[..i] == fieldsToStore;
    }
  }
}
