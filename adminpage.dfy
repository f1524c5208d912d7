/** The administrator's page: the checks run before a book or a user is added, the
    search boxes over the book and user lists, and the profile sidebar's validators and
    submit. Drawing, requests and the spinner are left out. */
module AdminPage {
  import opened Base
  import opened Strings
  import opened Sorting
  import opened Catalog
  import Validation

  // ---------------------------------------------------------------- add a book

  /** The add-book form as `Object.fromEntries(new FormData(form))` gives it: the
      form's field names mapped to the text typed into them. */
  type BookForm = map<string, string>

  const BookRequiredText := "Title, author, and quantity are required."

  datatype AddBookAction = BookError(message: string) | SendBook(book: BookForm)

  /** `!book.f` for a form field: the field is missing or empty. */
  predicate Blank(form: BookForm, f: string) {
    f !in form || form[f] == ""
  }

  /** The add-book submit: an error unless title, author and quantity are all filled
      in; otherwise the form's entries go to the server as they are. */
  function AddBookSubmit(form: BookForm): (a: AddBookAction)
    ensures a.SendBook? <==> !Blank(form, "title") && !Blank(form, "author") && !Blank(form, "quantity")
    ensures a.SendBook? ==> a.book == form
    ensures a.BookError? ==> a.message == BookRequiredText
  {
    if Blank(form, "title") || Blank(form, "author") || Blank(form, "quantity") then BookError(BookRequiredText)
    else SendBook(form)
  }

  /** Filling in the three required fields is enough: the other fields never matter. */
  lemma AddBookOtherFieldsIgnored(form: BookForm, f: string, v: string)
    requires f != "title" && f != "author" && f != "quantity"
    ensures AddBookSubmit(form[f := v]).SendBook? <==> AddBookSubmit(form).SendBook?
  {
    assert forall g :: g != f ==> (Blank(form[f := v], g) <==> Blank(form, g));
  }

  // ---------------------------------------------------------------- add a user

  /** The add-user form: the five inputs' raw values. */
  datatype UserForm = UserForm(username: string, email: string, department: string, password: string, role: string)

  /** The request body sent to create a user; a blank department is sent as `null`. */
  datatype NewUser = NewUser(username: string, email: string, department: Option<string>, password: string,
                             role: string)

  const UserRequiredText := "Username, email, password, and role are required."
  const UserEmailText := "Please enter a valid email address."
  const UserPasswordText := "Password must be at least 6 characters long."

  datatype AddUserAction = UserError(message: string) | SendUser(user: NewUser)

  /** The values as the handler reads them: every input trimmed, an empty department
      becoming `null`. */
  function Cleaned(f: UserForm): NewUser {
    var department := Trim(f.department);
    NewUser(Trim(f.username), Trim(f.email), if department == "" then None else Some(department),
            Trim(f.password), Trim(f.role))
  }

  /** The add-user submit: all four required fields, then the e-mail pattern, then the
      password length, each failure with its own message; only a form passing all three
      is sent, with its trimmed values. */
  function AddUserSubmit(f: UserForm): (a: AddUserAction)
    ensures var u := Cleaned(f);
      var filled := u.username != "" && u.email != "" && u.password != "" && u.role != "";
      && (a == UserError(UserRequiredText) <==> !filled)
      && (a == UserError(UserEmailText) <==> filled && !Validation.MatchesEmailPattern(u.email))
      && (a == UserError(UserPasswordText) <==>
            filled && Validation.MatchesEmailPattern(u.email) && Utf16Length(u.password) < 6)
      && (a.SendUser? <==> filled && Validation.MatchesEmailPattern(u.email) && Utf16Length(u.password) >= 6)
      && (a.SendUser? ==> a.user == u)
  {
    var u := Cleaned(f);
    if u.username == "" || u.email == "" || u.password == "" || u.role == "" then UserError(UserRequiredText)
    else if !Validation.ValidateEmail(u.email) then UserError(UserEmailText)
    else if Utf16Length(u.password) < 6 then UserError(UserPasswordText)
    else SendUser(u)
  }

  /** What is sent carries no surrounding blanks: submitting it again as typed sends
      the same user. */
  lemma AddUserSendsTrimmed(f: UserForm)
    requires AddUserSubmit(f).SendUser?
    ensures var u := AddUserSubmit(f).user;
      var g := UserForm(u.username, u.email, if u.department.Some? then u.department.value else "",
                        u.password, u.role);
      AddUserSubmit(g) == AddUserSubmit(f)
  {
    var u := Cleaned(f);
    TrimIdempotent(f.username);
    TrimIdempotent(f.email);
    TrimIdempotent(f.department);
    TrimIdempotent(f.password);
    TrimIdempotent(f.role);
    TrimEmptyOfEmpty();
  }

  lemma TrimEmptyOfEmpty()
    ensures Trim("") == ""
  {
  }

  // ---------------------------------------------------------------- search boxes

  /** What typing in a search box does: nothing while the list is empty, otherwise
      draw the matching entries, unless reading a missing field throws first. */
  datatype SearchOutcome<T> = NoChange | Render(shown: seq<T>) | Throws

  /** The book search's test on one book, `None` where `.toLowerCase()` is called on a
      missing title or author and throws; the genre is tested only when present. */
  function BookTest(b: ListedBook, term: string): Option<bool> {
    match b.title
    case None => None
    case Some(t) =>
      if Includes(ToLower(t), term) then Some(true)
      else match b.author
        case None => None
        case Some(a) =>
          if Includes(ToLower(a), term) then Some(true)
          else Some(Truthy(b.genre) && Includes(ToLower(b.genre.value), term))
  }

  /** The term occurs in the lower-cased title, author or (present) genre. */
  predicate BookMatches(b: ListedBook, term: string) {
    (b.title.Some? && Includes(ToLower(b.title.value), term))
    || (b.author.Some? && Includes(ToLower(b.author.value), term))
    || (Truthy(b.genre) && Includes(ToLower(b.genre.value), term))
  }
  /** The test "title, author or genre contains `term`". */
  function BookMatchesBy(term: string): ListedBook -> bool {
    b => BookMatches(b, term)
  }


  /** `filter` runs the test on every book, so one that throws makes the search throw. */
  function SearchBooks(all: seq<ListedBook>, value: string): (o: SearchOutcome<ListedBook>)
    ensures o.NoChange? <==> all == []
    ensures o.Throws? <==> all != [] && exists i :: 0 <= i < |all| && BookTest(all[i], ToLower(value)).None?
    ensures o.Render? ==> IsSubsequence(o.shown, all)
    ensures o.Render? ==> forall b :: b in o.shown <==> b in all && BookMatches(b, ToLower(value))
    ensures o.Render? ==> o.shown == Filter(all, BookMatchesBy(ToLower(value)))
  {
    var term := ToLower(value);
    if all == [] then NoChange
    else if exists i :: 0 <= i < |all| && BookTest(all[i], term).None? then Throws
    else
      var r := Filter(all, b => BookTest(b, term) == Some(true));
      BookTestAgrees(all, term);
      FilterSameTest(all, b => BookTest(b, term) == Some(true), BookMatchesBy(term));
      Render(r)
  }

  /** Where the test does not throw it answers whether the book matches. */
  lemma BookTestAgrees(all: seq<ListedBook>, term: string)
    requires forall i :: 0 <= i < |all| ==> BookTest(all[i], term).Some?
    ensures forall b :: b in all ==> (BookTest(b, term) == Some(true) <==> BookMatches(b, term))
  {
  }

  /** Books with a title and an author never make the search throw, and an empty term
      keeps every book. */
  lemma SearchBooksTotal(all: seq<ListedBook>, value: string)
    requires all != []
    requires forall b :: b in all ==> b.title.Some? && b.author.Some?
    ensures SearchBooks(all, value).Render?
    ensures value == "" ==> forall b :: b in all ==> b in SearchBooks(all, value).shown
  {
    var term := ToLower(value);
    forall i | 0 <= i < |all|
      ensures BookTest(all[i], term).Some?
    {
      assert all[i] in all;
    }
    if value == "" {
      forall b | b in all
        ensures BookMatches(b, term)
      {
        assert OccursAt(ToLower(b.title.value), term, 0);
      }
    }
  }

  /** A user as the user list holds it. */
  datatype ListedUser = ListedUser(id: int, username: Option<string>, email: Option<string>,
                                   department: Option<string>, role: Option<string>)

  /** The user search's test: the lower-cased username, then the lower-cased e-mail;
      a missing one throws when it is reached. */
  function UserTest(u: ListedUser, term: string): Option<bool> {
    match u.username
    case None => None
    case Some(n) =>
      if Includes(ToLower(n), term) then Some(true)
      else match u.email
        case None => None
        case Some(e) => Some(Includes(ToLower(e), term))
  }

  predicate UserMatches(u: ListedUser, term: string) {
    (u.username.Some? && Includes(ToLower(u.username.value), term))
    || (u.email.Some? && Includes(ToLower(u.email.value), term))
  }
  /** The test "user name or e-mail contains `term`". */
  function UserMatchesBy(term: string): ListedUser -> bool {
    u => UserMatches(u, term)
  }


  function SearchUsers(all: seq<ListedUser>, value: string): (o: SearchOutcome<ListedUser>)
    ensures o.NoChange? <==> all == []
    ensures o.Throws? <==> all != [] && exists i :: 0 <= i < |all| && UserTest(all[i], ToLower(value)).None?
    ensures o.Render? ==> IsSubsequence(o.shown, all)
    ensures o.Render? ==> forall u :: u in o.shown <==> u in all && UserMatches(u, ToLower(value))
    ensures o.Render? ==> o.shown == Filter(all, UserMatchesBy(ToLower(value)))
  {
    var term := ToLower(value);
    if all == [] then NoChange
    else if exists i :: 0 <= i < |all| && UserTest(all[i], term).None? then Throws
    else
      var r := Filter(all, u => UserTest(u, term) == Some(true));
      UserTestAgrees(all, term);
      FilterSameTest(all, u => UserTest(u, term) == Some(true), UserMatchesBy(term));
      Render(r)
  }

  lemma UserTestAgrees(all: seq<ListedUser>, term: string)
    requires forall i :: 0 <= i < |all| ==> UserTest(all[i], term).Some?
    ensures forall u :: u in all ==> (UserTest(u, term) == Some(true) <==> UserMatches(u, term))
  {
  }

  /** The term is lower-cased but the fields too, so the search ignores the case of
      what is typed: typing it in upper case shows the same users. */
  lemma SearchUsersIgnoresCase(all: seq<ListedUser>, value: string)
    ensures SearchUsers(all, ToLower(value)) == SearchUsers(all, value)
  {
    ToLowerIdempotent(value);
  }

  // ---------------------------------------------------------------- profile sidebar

  /** The sidebar's password check, run on blur: an empty password means "keep the
      current one" and passes; otherwise six UTF-16 code units at least. */
  predicate SidebarPassword(p: string) {
    p == "" || Utf16Length(p) >= 6
  }

  /** The sidebar's confirmation check: nothing to confirm without a new password. */
  predicate SidebarConfirm(p: string, c: string) {
    p == "" || c == p
  }

  /** The sidebar's e-mail check: the sign-up pattern on the trimmed value. */
  predicate SidebarEmail(e: string) {
    Validation.ValidateEmail(Trim(e))
  }

  /** The sidebar's checks differ from the sign-up page's only for the empty password,
      which the sidebar lets through. */
  lemma SidebarRelaxesSignUp(p: string, c: string)
    ensures p != "" ==> (SidebarPassword(p) <==> Validation.ValidatePassword(p))
    ensures p != "" ==> (SidebarConfirm(p, c) <==> Validation.ValidateConfirmPassword(p, c))
    ensures SidebarPassword("") && !Validation.ValidatePassword("")
    ensures SidebarConfirm("", c)
  {
  }

  /** The profile form's inputs; `None` where the page has no such element. */
  datatype ProfileForm = ProfileForm(email: Option<string>, fullName: Option<string>, phone: Option<string>,
                                     address: Option<string>, password: Option<string>,
                                     confirm: Option<string>)

  const ProfileErrorText := "Please correct the errors in the form"

  /** The keys of the update request's body: `email`, `fullName`, `phoneNumber`,
      `address` and `password`. */
  datatype ProfileKey = Email | FullName | PhoneNumber | Address | Password

  datatype ProfileAction = ProfileAlert(message: string) | SendProfile(data: map<ProfileKey, string>)

  /** The submit's `isValid`: the e-mail when there is that input, and, only when a new
      password was typed, its length and its confirmation (when there is that input). */
  predicate ProfileValid(f: ProfileForm) {
    (f.email.None? || SidebarEmail(f.email.value))
    && (f.password.None? || f.password.value == ""
        || (SidebarPassword(f.password.value)
            && (f.confirm.None? || SidebarConfirm(f.password.value, f.confirm.value))))
  }

  /** One entry of the update request's body: each present text input trimmed, and the
      password, untrimmed, only when one was typed. */
  function ProfileEntry(f: ProfileForm, k: ProfileKey): Option<string> {
    match k
    case Email => if f.email.Some? then Some(Trim(f.email.value)) else None
    case FullName => if f.fullName.Some? then Some(Trim(f.fullName.value)) else None
    case PhoneNumber => if f.phone.Some? then Some(Trim(f.phone.value)) else None
    case Address => if f.address.Some? then Some(Trim(f.address.value)) else None
    case Password => if f.password.Some? && f.password.value != "" then Some(f.password.value) else None
  }

  const ProfileFields: set<ProfileKey> := {Email, FullName, PhoneNumber, Address, Password}

  /** The body of the update request. */
  function ProfileData(f: ProfileForm): (d: map<ProfileKey, string>)
    ensures Email in d <==> f.email.Some?
    ensures Email in d ==> d[Email] == Trim(f.email.value)
    ensures Password in d <==> f.password.Some? && f.password.value != ""
    ensures Password in d ==> d[Password] == f.password.value
  {
    map k | k in ProfileFields && ProfileEntry(f, k).Some? :: ProfileEntry(f, k).value
  }

  /** The profile submit: the alert when a check fails, else the update request. */
  function ProfileSubmit(f: ProfileForm): (a: ProfileAction)
    ensures a.ProfileAlert? <==> !ProfileValid(f)
    ensures a.ProfileAlert? ==> a.message == ProfileErrorText
    ensures a.SendProfile? ==> a.data == ProfileData(f)
  {
    if ProfileValid(f) then SendProfile(ProfileData(f)) else ProfileAlert(ProfileErrorText)
  }

  /** A password reaches the server only when it was typed, is six code units long at
      least, and matches its confirmation; an e-mail only when it has the pattern. */
  lemma ProfileSendsChecked(f: ProfileForm)
    requires ProfileSubmit(f).SendProfile?
    ensures var d := ProfileSubmit(f).data;
      && (Password in d <==> f.password.Some? && f.password.value != "")
      && (Password in d ==> d[Password] == f.password.value && Validation.ValidatePassword(d[Password])
                             && (f.confirm.Some? ==> f.confirm.value == d[Password]))
      && (Email in d <==> f.email.Some?)
      && (Email in d ==> Validation.MatchesEmailPattern(d[Email]))
  {
    var d := ProfileData(f);
    assert ProfileValid(f);
  }
}
