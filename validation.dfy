/** Registration form validation: the email rule written by the regular expression
    `^[^\s@]+@[^\s@]+\.[^\s@]+$`, the password and confirmation rules, the three
    first-failure submit chains of the sign-up pages, and the live field feedback. */
module Validation {
  import opened Base
  import opened Strings

  // ---------------------------------------------------------------- the three rules

  /** A character `[^\s@]` accepts. */
  predicate Atom(c: char) {
    !IsSpace(c) && c != '@'
  }

  /** A non-empty run of such characters: `[^\s@]+`. */
  predicate Atoms(t: string) {
    |t| > 0 && forall k :: 0 <= k < |t| ==> Atom(t[k])
  }

  /** The regular expression read declaratively: the string is a run, `@`, a run, `.`
      and a run. */
  ghost predicate MatchesEmailPattern(s: string) {
    exists i, j :: 0 <= i < j < |s| && s[i] == '@' && s[j] == '.'
      && Atoms(s[..i]) && Atoms(s[i + 1..j]) && Atoms(s[j + 1..])
  }

  /** A dot with at least one character on each side. */
  predicate HasInnerDot(d: string) {
    exists k :: 1 <= k < |d| - 1 && d[k] == '.'
  }

  /** `validateEmail`: no whitespace, a non-empty part before the first `@`, no other
      `@`, and a dot inside the part after it. */
  function ValidateEmail(s: string): (ok: bool)
    ensures ok <==> MatchesEmailPattern(s)
  {
    var at := IndexOf(s, '@');
    var ok := NoSpace(s) && at > 0 && '@' !in s[at + 1..] && HasInnerDot(s[at + 1..]);
    EmailPatternIff(s);
    ok
  }

  lemma EmailPatternIff(s: string)
    ensures MatchesEmailPattern(s) <==>
      (var at := IndexOf(s, '@'); NoSpace(s) && at > 0 && '@' !in s[at + 1..] && HasInnerDot(s[at + 1..]))
  {
    var at := IndexOf(s, '@');
    if NoSpace(s) && at > 0 && '@' !in s[at + 1..] && HasInnerDot(s[at + 1..]) {
      RecognizerMatches(s, at);
    }
    if MatchesEmailPattern(s) {
      var i, j :| 0 <= i < j < |s| && s[i] == '@' && s[j] == '.'
        && Atoms(s[..i]) && Atoms(s[i + 1..j]) && Atoms(s[j + 1..]);
      PatternParts(s, i, j);
    }
  }

  /** The characters of `s` from `lo` up to `hi` are all accepted by `[^\s@]`. */
  predicate AtomsIn(s: string, lo: int, hi: int)
    requires 0 <= lo <= hi <= |s|
  {
    forall m :: lo <= m < hi ==> Atom(s[m])
  }

  lemma AtomsSlice(s: string, lo: int, hi: int)
    requires 0 <= lo < hi <= |s|
    ensures Atoms(s[lo..hi]) <==> AtomsIn(s, lo, hi)
  {
    assert forall m :: 0 <= m < hi - lo ==> s[lo..hi][m] == s[lo + m];
    if Atoms(s[lo..hi]) {
      forall m | lo <= m < hi ensures Atom(s[m]) { assert s[m] == s[lo..hi][m - lo]; }
    }
  }

  lemma RecognizerMatches(s: string, at: int)
    requires at == IndexOf(s, '@')
    requires NoSpace(s) && at > 0 && '@' !in s[at + 1..] && HasInnerDot(s[at + 1..])
    ensures MatchesEmailPattern(s)
  {
    var d := s[at + 1..];
    var k :| 1 <= k < |d| - 1 && d[k] == '.';
    var j := at + 1 + k;
    assert s[j] == d[k] == '.';
    forall m | 0 <= m < at ensures Atom(s[m]) { assert s[m] == s[..at][m]; }
    forall m | at + 1 <= m < |s| ensures Atom(s[m]) { assert s[m] == d[m - at - 1]; }
    AtomsSlice(s, 0, at);
    AtomsSlice(s, at + 1, j);
    AtomsSlice(s, j + 1, |s|);
    assert s[..at] == s[0..at];
    assert s[j + 1..] == s[j + 1..|s|];
  }

  lemma PatternParts(s: string, i: int, j: int)
    requires 0 <= i < j < |s| && s[i] == '@' && s[j] == '.'
    requires Atoms(s[..i]) && Atoms(s[i + 1..j]) && Atoms(s[j + 1..])
    ensures IndexOf(s, '@') == i
    ensures NoSpace(s) && '@' !in s[i + 1..] && HasInnerDot(s[i + 1..])
  {
    assert s[..i] == s[0..i] && s[j + 1..] == s[j + 1..|s|];
    AtomsSlice(s, 0, i);
    AtomsSlice(s, i + 1, j);
    AtomsSlice(s, j + 1, |s|);
    var d := s[i + 1..];
    forall m | 0 <= m < |d| ensures d[m] != '@' { assert d[m] == s[i + 1 + m]; }
    assert '@' !in s[..i];
    IndexAfterFree(s[..i], '@', d);
    assert s == s[..i] + ['@'] + d;
    assert d[j - i - 1] == '.';
  }

  /** `validatePassword`: at least six UTF-16 code units, as JavaScript's `.length` counts. */
  predicate ValidatePassword(p: string) {
    Utf16Length(p) >= 6
  }

  /** `validateConfirmPassword`: the two entries are the same string. */
  predicate ValidateConfirmPassword(p: string, c: string) {
    p == c
  }

  lemma ConfirmSymmetric(p: string, c: string)
    ensures ValidateConfirmPassword(p, c) <==> ValidateConfirmPassword(c, p)
  {
  }

  /** The rule is not vacuous: a short address passes. */
  lemma EmailAccepted()
    ensures ValidateEmail("a@b.c")
  {
    var s := "a@b.c";
    assert s[..1] == "a" && s[2..3] == "b" && s[4..] == "c";
    assert 0 <= 1 < 3 < |s| && s[1] == '@' && s[3] == '.' && Atoms(s[..1]) && Atoms(s[2..3]) && Atoms(s[4..]);
  }

  // ---------------------------------------------------------------- submit chains

  /** The five fields of the sign-up form, as `.value` gives them. */
  datatype SignUp = SignUp(username: string, email: string, department: string, password: string, confirm: string)

  const FillAllText := "Please fill in all fields."
  const BadEmailText := "Please enter a valid email address."
  const ShortPasswordText := "Password must be at least 6 characters long."
  const MismatchText := "Passwords do not match."

  /** What submitting does: show an error, send the registration request (the
      confirmation is not sent), or report success and clear the form without a request. */
  datatype Action =
    | ShowError(message: string)
    | SendRegistration(username: string, email: string, department: string, password: string)
    | SucceedAndReset

  /** `!username || !email || ...`: every field is a non-empty string. */
  predicate AllFilled(f: SignUp) {
    f.username != "" && f.email != "" && f.department != "" && f.password != "" && f.confirm != ""
  }

  /** Every check of the chains passes. */
  predicate Acceptable(f: SignUp) {
    AllFilled(f) && ValidateEmail(f.email) && ValidatePassword(f.password) && ValidateConfirmPassword(f.password, f.confirm)
  }

  function Send(f: SignUp): Action {
    SendRegistration(f.username, f.email, f.department, f.password)
  }

  /** The sign-up page's chain: fill-all, email, length, confirmation; the first failure
      decides the message, and the request is sent exactly when all pass. */
  function SignUpPageSubmit(f: SignUp): (a: Action)
    ensures a == Send(f) <==> Acceptable(f)
    ensures a == ShowError(FillAllText) <==> !AllFilled(f)
    ensures a == ShowError(BadEmailText) <==> AllFilled(f) && !ValidateEmail(f.email)
    ensures a == ShowError(ShortPasswordText) <==> AllFilled(f) && ValidateEmail(f.email) && !ValidatePassword(f.password)
    ensures a == ShowError(MismatchText) <==> AllFilled(f) && ValidateEmail(f.email) && ValidatePassword(f.password) && f.password != f.confirm
  {
    if !AllFilled(f) then ShowError(FillAllText)
    else if !ValidateEmail(f.email) then ShowError(BadEmailText)
    else if !ValidatePassword(f.password) then ShowError(ShortPasswordText)
    else if !ValidateConfirmPassword(f.password, f.confirm) then ShowError(MismatchText)
    else Send(f)
  }

  /** The checks of the two script pages, in their order: fill-all, confirmation,
      length, email. */
  function ScriptChecks(f: SignUp): (r: Option<string>)
    ensures r.None? <==> Acceptable(f)
    ensures r == Some(FillAllText) <==> !AllFilled(f)
    ensures r == Some(MismatchText) <==> AllFilled(f) && f.password != f.confirm
    ensures r == Some(ShortPasswordText) <==> AllFilled(f) && f.password == f.confirm && !ValidatePassword(f.password)
    ensures r == Some(BadEmailText) <==> AllFilled(f) && f.password == f.confirm && ValidatePassword(f.password) && !ValidateEmail(f.email)
  {
    if !AllFilled(f) then Some(FillAllText)
    else if f.password != f.confirm then Some(MismatchText)
    else if Utf16Length(f.password) < 6 then Some(ShortPasswordText)
    else if !ValidateEmail(f.email) then Some(BadEmailText)
    else None
  }

  /** The registration form's submit in `Frontend/js/script.js`: the request is sent when
      every check passes. */
  function RegisterFormSubmit(f: SignUp): (a: Action)
    ensures a == Send(f) <==> Acceptable(f)
    ensures a.ShowError? <==> !Acceptable(f)
  {
    match ScriptChecks(f)
    case Some(m) => ShowError(m)
    case None => Send(f)
  }

  /** The static page's submit: success is shown and the form cleared, with no request. */
  function StaticScriptSubmit(f: SignUp): (a: Action)
    ensures a == SucceedAndReset <==> Acceptable(f)
    ensures !a.SendRegistration?
  {
    match ScriptChecks(f)
    case Some(m) => ShowError(m)
    case None => SucceedAndReset
  }

  /** The three chains accept the same forms, and an empty field gives the same message in
      all three. */
  lemma ChainsAgree(f: SignUp)
    ensures SignUpPageSubmit(f).SendRegistration? <==> RegisterFormSubmit(f).SendRegistration?
    ensures RegisterFormSubmit(f).SendRegistration? <==> StaticScriptSubmit(f) == SucceedAndReset
    ensures !AllFilled(f) ==>
      SignUpPageSubmit(f) == RegisterFormSubmit(f) == StaticScriptSubmit(f) == ShowError(FillAllText)
  {
    if SignUpPageSubmit(f).SendRegistration? {
      assert SignUpPageSubmit(f) == Send(f);
    }
  }

  /** With a malformed address and two different passwords the chains disagree on the
      message: the sign-up page names the address, the scripts the passwords. */
  lemma FirstFailureDiffers()
    ensures var f := SignUp("u", "x", "d", "secret", "secreT");
      SignUpPageSubmit(f) == ShowError(BadEmailText) && RegisterFormSubmit(f) == ShowError(MismatchText)
  {
    var f := SignUp("u", "x", "d", "secret", "secreT");
    assert IndexOf(f.email, '@') == -1;
    assert f.password[5] != f.confirm[5];
  }

  // ---------------------------------------------------------------- live feedback

  /** The feedback under a field: none, an error, or a confirmation. */
  datatype Feedback = Neutral | Invalid(text: string) | Valid(text: string)

  /** Password feedback on input: an error for one to five code units, a confirmation
      for six or more, nothing when empty. */
  function PasswordFeedback(p: string): (fb: Feedback)
    ensures fb.Valid? <==> ValidatePassword(p)
    ensures fb.Neutral? <==> p == ""
  {
    var n := Utf16Length(p);
    if n > 0 && n < 6 then Invalid(ShortPasswordText)
    else if n >= 6 then Valid("Password is valid.")
    else Neutral
  }

  /** Confirmation feedback on input: nothing when empty, else match or mismatch. */
  function ConfirmFeedback(c: string, p: string): (fb: Feedback)
    ensures fb.Valid? <==> c != "" && ValidateConfirmPassword(p, c)
    ensures fb.Neutral? <==> c == ""
  {
    if |c| > 0 && c != p then Invalid(MismatchText)
    else if |c| > 0 && c == p then Valid("Passwords match.")
    else Neutral
  }

  /** Email feedback on leaving the field: nothing when empty, else the rule's verdict. */
  function EmailFeedback(e: string): (fb: Feedback)
    ensures fb.Valid? <==> ValidateEmail(e)
    ensures fb.Neutral? <==> e == ""
  {
    if |e| > 0 && !ValidateEmail(e) then Invalid(BadEmailText)
    else if |e| > 0 then Valid("Email is valid.")
    else Neutral
  }

  /** An address the rule accepts is never empty. */
  lemma ValidEmailNotEmpty(e: string)
    requires ValidateEmail(e)
    ensures e != ""
  {
  }

  /** When all three fields show a confirmation and the other two are filled, every chain
      accepts the form. */
  lemma FeedbackPredictsAcceptance(f: SignUp)
    requires f.username != "" && f.department != ""
    requires PasswordFeedback(f.password).Valid? && ConfirmFeedback(f.confirm, f.password).Valid?
    requires EmailFeedback(f.email).Valid?
    ensures SignUpPageSubmit(f) == Send(f) && RegisterFormSubmit(f) == Send(f)
    ensures StaticScriptSubmit(f) == SucceedAndReset
  {
  }

  /** The border colours of the static page. */
  datatype Border = Red | Green | Grey

  function BorderOf(fb: Feedback): Border {
    match fb
    case Neutral => Grey
    case Invalid(_) => Red
    case Valid(_) => Green
  }

  function PasswordBorder(p: string): Border {
    var n := Utf16Length(p);
    if n > 0 && n < 6 then Red else if n >= 6 then Green else Grey
  }

  function ConfirmBorder(c: string, p: string): Border {
    if |c| > 0 && c != p then Red else if |c| > 0 && c == p then Green else Grey
  }

  function EmailBorder(e: string): Border {
    if |e| > 0 && !ValidateEmail(e) then Red else if |e| > 0 then Green else Grey
  }

  /** The static page's borders say what the dashboard script's feedback says. */
  lemma BordersMatchFeedback(p: string, c: string, e: string)
    ensures PasswordBorder(p) == BorderOf(PasswordFeedback(p))
    ensures ConfirmBorder(c, p) == BorderOf(ConfirmFeedback(c, p))
    ensures EmailBorder(e) == BorderOf(EmailFeedback(e))
    ensures PasswordBorder(p) == Green <==> ValidatePassword(p)
    ensures EmailBorder(e) == Green <==> ValidateEmail(e)
  {
  }
}
