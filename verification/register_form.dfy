/** The registration form: the username and password rules, the three
    tri-state indicators (`None` = not yet known, `Some(b)` = known), the
    terms checkboxes, the duplicate-check outcome and the ordered submit
    gate. Network replies are inputs. */
module RegisterForm {
  import opened Common
  import Text

  // ---------------------------------------------------------------------
  // Character classes and the two patterns
  // ---------------------------------------------------------------------

  predicate IsLower(c: char) { 'a' <= c <= 'z' }
  predicate IsUpper(c: char) { 'A' <= c <= 'Z' }

  /** The class `[@$!%*?&]`. */
  predicate IsSpecial(c: char) {
    c == '@' || c == '$' || c == '!' || c == '%' || c == '*' || c == '?' || c == '&'
  }

  /** The class `[a-zA-Z0-9]`. */
  predicate IsAsciiAlnum(c: char) {
    IsLower(c) || IsUpper(c) || Text.IsDigit(c)
  }

  /** The class `[A-Za-z\d@$!%*?&]`. */
  predicate IsPasswordChar(c: char) {
    IsAsciiAlnum(c) || IsSpecial(c)
  }

  /** `/^[a-zA-Z0-9]{5,20}$/`. */
  predicate UsernameValid(s: string) {
    5 <= |s| <= 20 && forall i :: 0 <= i < |s| ==> IsAsciiAlnum(s[i])
  }

  predicate HasLower(s: string) { exists i :: 0 <= i < |s| && IsLower(s[i]) }
  predicate HasUpper(s: string) { exists i :: 0 <= i < |s| && IsUpper(s[i]) }
  predicate HasDigit(s: string) { exists i :: 0 <= i < |s| && Text.IsDigit(s[i]) }
  predicate HasSpecial(s: string) { exists i :: 0 <= i < |s| && IsSpecial(s[i]) }

  /** `/^(?=.*[a-z])(?=.*[A-Z])(?=.*\d)(?=.*[@$!%*?&])[A-Za-z\d@$!%*?&]{8,}$/`:
      at least eight characters, all from the allowed class, with at least
      one lower-case letter, one upper-case letter, one digit and one of
      the specials. */
  predicate PasswordValid(s: string) {
    && |s| >= 8
    && (forall i :: 0 <= i < |s| ==> IsPasswordChar(s[i]))
    && HasLower(s) && HasUpper(s) && HasDigit(s) && HasSpecial(s)
  }

  /** The password pattern tested in one left-to-right pass, as a regular
      expression engine would run its lookaheads and its class. */
  method CheckPassword(s: string) returns (ok: bool)
    ensures ok <==> PasswordValid(s)
  {
    var allowed, lower, upper, digit, special := true, false, false, false, false;
    var i := 0;
    while i < |s|
      invariant 0 <= i <= |s|
      invariant allowed <==> forall k :: 0 <= k < i ==> IsPasswordChar(s[k])
      invariant lower <==> exists k :: 0 <= k < i && IsLower(s[k])
      invariant upper <==> exists k :: 0 <= k < i && IsUpper(s[k])
      invariant digit <==> exists k :: 0 <= k < i && Text.IsDigit(s[k])
      invariant special <==> exists k :: 0 <= k < i && IsSpecial(s[k])
    {
      var c := s[i];
      if !IsPasswordChar(c) { allowed := false; }
      if IsLower(c) { lower := true; }
      if IsUpper(c) { upper := true; }
      if Text.IsDigit(c) { digit := true; }
      if IsSpecial(c) { special := true; }
      i := i + 1;
    }
    ok := |s| >= 8 && allowed && lower && upper && digit && special;
  }

  /** Examples: a password meeting every rule, and one that misses only
      the special character. */
  lemma PasswordExamples()
    ensures PasswordValid("Abcdef1!")
    ensures !PasswordValid("Abcdefg1")
  {
    var good := "Abcdef1!";
    assert IsUpper(good[0]) && IsLower(good[1]) && Text.IsDigit(good[6]) && IsSpecial(good[7]);
    var bad := "Abcdefg1";
    assert forall i :: 0 <= i < |bad| ==> !IsSpecial(bad[i]);
  }

  // ---------------------------------------------------------------------
  // The three indicators
  // ---------------------------------------------------------------------

  /** The username indicator and the availability indicator together. */
  datatype UsernameStatus = UsernameStatus(valid: Option<bool>, available: Option<bool>)

  /** The effect run on every change of the username: an empty name clears
      both indicators; otherwise validity is the pattern's verdict, and
      availability must be checked again (unknown) for a valid name and is
      false for an invalid one. */
  function UsernameEffect(username: string): (r: UsernameStatus)
    ensures r.valid.None? <==> username == []
    ensures r.valid.Some? ==> (r.valid.value <==> UsernameValid(username))
    ensures r.available.None? <==> username == [] || UsernameValid(username)
    ensures r.available != Some(true)
  {
    if username == [] then UsernameStatus(None, None)
    else if UsernameValid(username) then UsernameStatus(Some(true), None)
    else UsernameStatus(Some(false), Some(false))
  }

  /** The effect run on every change of the password. */
  function PasswordEffect(password: string): (r: Option<bool>)
    ensures r.None? <==> password == []
    ensures r.Some? ==> (r.value <==> PasswordValid(password))
  {
    if password == [] then None else Some(PasswordValid(password))
  }

  /** The effect run on every change of the password or its confirmation. */
  function MatchEffect(password: string, confirm: string): (r: Option<bool>)
    ensures r.None? <==> confirm == []
    ensures r.Some? ==> (r.value <==> password == confirm)
  {
    if confirm == [] then None else Some(password == confirm)
  }

  // ---------------------------------------------------------------------
  // Terms
  // ---------------------------------------------------------------------

  datatype Terms = Terms(all: bool, usage: bool, service: bool)

  /** The "agree to all" box is ticked exactly when both required boxes
      are. */
  predicate Coherent(t: Terms) {
    t.all == (t.usage && t.service)
  }

  /** The two required boxes. */
  datatype Term = Usage | Service

  /** `handleCheckAll`: every box takes the new value. */
  function CheckAll(checked: bool): (r: Terms)
    ensures Coherent(r)
    ensures r.usage == checked && r.service == checked
  {
    Terms(checked, checked, checked)
  }

  /** `handleCheckTerm(name)`: the named box takes the new value, the other
      keeps its own, and "all" is recomputed, whatever it was before. */
  function CheckTerm(t: Terms, name: Term, checked: bool): (r: Terms)
    ensures Coherent(r)
    ensures name == Usage ==> r.usage == checked && r.service == t.service
    ensures name == Service ==> r.service == checked && r.usage == t.usage
  {
    var n := match name
      case Usage => t.(usage := checked)
      case Service => t.(service := checked);
    n.(all := n.usage && n.service)
  }

  const InitialTerms := Terms(false, false, false)

  /** The terms invariant holds at the start and after every handler, and
      ticking both required boxes one by one ticks "all". */
  lemma TermsStayCoherent(t: Terms, name: Term, checked: bool)
    ensures Coherent(InitialTerms)
    ensures Coherent(CheckTerm(t, name, checked))
    ensures CheckTerm(CheckTerm(InitialTerms, Usage, true), Service, true).all
    ensures !CheckTerm(CheckAll(true), name, false).all
  {
  }

  // ---------------------------------------------------------------------
  // The duplicate check
  // ---------------------------------------------------------------------

  /** What the availability request produced: a reply with its `ok` flag and
      the `available` field of its body (absent on an error body), or a
      thrown error (network failure, unreadable body). */
  datatype CheckReply = Reply(ok: bool, available: Option<bool>) | Threw

  /** `handleCheckDuplicate`: refused before any request unless the name is
      known to be valid; otherwise availability becomes true only for an OK
      reply saying `available: true`, and false in every other case. */
  datatype DuplicateOutcome = Refused | Checked(available: bool)

  function CheckDuplicate(valid: Option<bool>, reply: CheckReply): (r: DuplicateOutcome)
    ensures r.Refused? <==> valid != Some(true)
    ensures r == Checked(true) <==> valid == Some(true) && reply == Reply(true, Some(true))
  {
    if valid != Some(true) then Refused
    else match reply
      case Reply(ok, available) => Checked(ok && available == Some(true))
      case Threw => Checked(false)
  }

  // ---------------------------------------------------------------------
  // The form and its submit gate
  // ---------------------------------------------------------------------

  datatype Form = Form(
    username: string, password: string, confirm: string,
    valid: Option<bool>, available: Option<bool>, passwordValid: Option<bool>, matches: Option<bool>,
    terms: Terms)

  const InitialForm := Form("", "", "", None, None, None, None, InitialTerms)

  /** What the indicators of a form whose effects have run say about its
      fields: validity, password and match follow the fields, availability
      is only ever true for a valid name, and the terms are coherent. */
  predicate Consistent(f: Form) {
    && f.valid == UsernameEffect(f.username).valid
    && (f.available == Some(true) ==> f.valid == Some(true))
    && f.passwordValid == PasswordEffect(f.password)
    && f.matches == MatchEffect(f.password, f.confirm)
    && Coherent(f.terms)
  }

  function SetUsername(f: Form, u: string): (r: Form)
    ensures r.username == u && r.available != Some(true)
    ensures Consistent(f) ==> Consistent(r)
  {
    var e := UsernameEffect(u);
    f.(username := u, valid := e.valid, available := e.available)
  }

  function SetPassword(f: Form, p: string): (r: Form)
    ensures r.password == p && r.confirm == f.confirm
    ensures Consistent(f) ==> Consistent(r)
  {
    f.(password := p, passwordValid := PasswordEffect(p), matches := MatchEffect(p, f.confirm))
  }

  function SetConfirm(f: Form, c: string): (r: Form)
    ensures r.confirm == c && r.password == f.password
    ensures Consistent(f) ==> Consistent(r)
  {
    f.(confirm := c, matches := MatchEffect(f.password, c))
  }

  function DuplicateChecked(f: Form, reply: CheckReply): (r: Form)
    ensures r.username == f.username
    ensures r.available == Some(true) <==>
      (f.valid == Some(true) && reply == Reply(true, Some(true))) || (f.valid != Some(true) && f.available == Some(true))
    ensures Consistent(f) ==> Consistent(r)
  {
    match CheckDuplicate(f.valid, reply)
    case Refused => f
    case Checked(a) => f.(available := Some(a))
  }

  function TickAll(f: Form, checked: bool): (r: Form)
    ensures r.terms.usage == checked && r.terms.service == checked
    ensures Consistent(f) ==> Consistent(r)
  {
    f.(terms := CheckAll(checked))
  }

  function TickTerm(f: Form, name: Term, checked: bool): (r: Form)
    ensures Consistent(f) ==> Consistent(r)
  {
    f.(terms := CheckTerm(f.terms, name, checked))
  }

  /** The verdict of `handleSubmit`, checked in this order. */
  datatype Gate = InvalidInput | NeedsDuplicateCheck | NeedsTerms | Send

  predicate InputsValid(f: Form) {
    f.valid == Some(true) && f.passwordValid == Some(true) && f.matches == Some(true)
  }

  function Submit(f: Form): (g: Gate)
    ensures g == InvalidInput <==> !InputsValid(f)
    ensures g == NeedsDuplicateCheck <==> InputsValid(f) && f.available != Some(true)
    ensures g == NeedsTerms <==> InputsValid(f) && f.available == Some(true) && !(f.terms.usage && f.terms.service)
    ensures g == Send <==> InputsValid(f) && f.available == Some(true) && f.terms.usage && f.terms.service
  {
    if !InputsValid(f) then InvalidInput
    else if f.available != Some(true) then NeedsDuplicateCheck
    else if !(f.terms.usage && f.terms.service) then NeedsTerms
    else Send
  }

  lemma InitialFormConsistent()
    ensures Consistent(InitialForm) && Submit(InitialForm) == InvalidInput
  {
  }

  /** On a form whose effects have run, a request is sent only with a name
      and a password that satisfy the patterns, a confirmation equal to the
      password, and every box ticked. */
  lemma SendOnlyValid(f: Form)
    requires Consistent(f) && Submit(f) == Send
    ensures UsernameValid(f.username) && PasswordValid(f.password) && f.password == f.confirm
    ensures f.terms.all
  {
  }

  /** Editing the name after a successful check, even to another valid
      name, forbids sending until the name is checked again. */
  lemma UsernameChangeNeedsRecheck(f: Form, u: string)
    ensures Submit(SetUsername(f, u)) != Send
  {
  }

  /** A scenario through the whole form: fill in, check the name, tick both
      boxes, and the request goes out. */
  lemma HappyPath(reply: CheckReply)
    requires reply == Reply(true, Some(true))
    ensures var f0 := SetConfirm(SetPassword(SetUsername(InitialForm, "alice1"), "Abcdef1!"), "Abcdef1!");
            var f1 := DuplicateChecked(f0, reply);
            var f2 := TickTerm(TickTerm(f1, Usage, true), Service, true);
            Submit(f0) == NeedsDuplicateCheck && Submit(f1) == NeedsTerms && Submit(f2) == Send
  {
    PasswordExamples();
    var u := "alice1";
    assert forall i :: 0 <= i < |u| ==> IsAsciiAlnum(u[i]);
    assert UsernameValid(u);
  }
}
