/** The login form: its three text fields, the hard-coded allowlist, and the
    submit handler that either stores the session flag and navigates to the
    dashboard or shows an inline error.
 */
module LoginPage {
  import opened Prelude
  import opened Session
  import AuthWrapper

  datatype Credentials = Credentials(username: string, password: string)

  /** The stub user list; there is no hashing and no network call. */
  const ValidUsers: seq<Credentials> :=
    [Credentials("admin", "admin123"), Credentials("user", "user123")]

  const InvalidMessage: string := "Invalid username or password"

  datatype Form = Form(username: string, password: string, error: string)

  const InitialForm: Form := Form("", "", "")

  /** The effects of one submission: the form afterwards, the session flag
      afterwards, and where the page navigates, if anywhere. */
  datatype Submission = Submission(form: Form, flag: Flag, navigate: Option<Path>)

  predicate Matches(u: Credentials, username: string, password: string) {
    u.username == username && u.password == password
  }

  /** Entry `i` matches and no earlier entry does. */
  predicate FirstMatch(users: seq<Credentials>, i: int, username: string, password: string) {
    && 0 <= i < |users|
    && Matches(users[i], username, password)
    && forall j :: 0 <= j < i ==> !Matches(users[j], username, password)
  }

  lemma FirstMatchAfterMismatch(users: seq<Credentials>, i: int, username: string, password: string)
    requires |users| > 0 && !Matches(users[0], username, password)
    requires FirstMatch(users[1..], i, username, password)
    ensures FirstMatch(users, i + 1, username, password)
  {
    forall j | 0 < j < i + 1
      ensures !Matches(users[j], username, password)
    {
      assert users[j] == users[1..][j - 1];
    }
  }

  /** `validUsers.find(...)`: the first entry whose two fields both match. */
  function FindUser(users: seq<Credentials>, username: string, password: string): (r: Option<Credentials>)
    ensures r.None? <==> forall i :: 0 <= i < |users| ==> !Matches(users[i], username, password)
    ensures r.Some? ==> exists i :: FirstMatch(users, i, username, password) && users[i] == r.value
  {
    if |users| == 0 then None
    else if Matches(users[0], username, password) then
      assert FirstMatch(users, 0, username, password);
      Some(users[0])
    else
      var r := FindUser(users[1..], username, password);
      assert forall i :: 1 <= i < |users| ==> users[i] == users[1..][i - 1];
      if r.Some? then
        var i :| FirstMatch(users[1..], i, username, password) && users[1..][i] == r.value;
        FirstMatchAfterMismatch(users, i, username, password);
        r
      else r
  }

  /** `handleLogin`: the error is cleared, then the allowlist decides. */
  function HandleLogin(form: Form, flag: Flag): (s: Submission)
    ensures s.form.username == form.username && s.form.password == form.password
    ensures s.navigate.Some? <==> Credentials(form.username, form.password) in ValidUsers
    ensures s.navigate.Some? ==> s.navigate == Some(DashboardRoute) && s.flag == Stored("true") && s.form.error == ""
    ensures s.navigate.None? ==> s.flag == flag && s.form.error == InvalidMessage
  {
    var cleared := form.(error := "");
    match FindUser(ValidUsers, form.username, form.password)
    case Some(_) => Submission(cleared, Stored(Authenticated), Some(DashboardRoute))
    case None => Submission(cleared.(error := InvalidMessage), flag, None)
  }

  /** Both fields must match the same entry: a valid user name with another
      user's password is refused. */
  lemma CrossedCredentialsRejected(flag: Flag)
    ensures HandleLogin(Form("admin", "user123", ""), flag).navigate == None
    ensures HandleLogin(Form("admin", "admin123", ""), flag).navigate == Some(DashboardRoute)
  {
    assert ValidUsers[0] == Credentials("admin", "admin123");
  }

  /** The outcome of a submission does not depend on the error left over from
      an earlier one. */
  lemma PreviousErrorForgotten(form: Form, flag: Flag, earlier: string)
    ensures HandleLogin(form.(error := earlier), flag) == HandleLogin(form, flag)
  {
  }

  /** After a successful submission the route guard lets the visitor in. */
  lemma {:induction false} LoginOpensGuard(form: Form, flag: Flag)
    requires Credentials(form.username, form.password) in ValidUsers
    ensures AuthWrapper.Guard(HandleLogin(form, flag).flag) == AuthWrapper.RenderOutlet
  {
  }
}
