/** A whole session as the three pages share it: the login page writes the
    flag, the dashboard's logout clears it, and the route guard reads it.
 */
module SessionCycle {
  import opened Session
  import AuthWrapper
  import LoginPage
  import Dashboard

  /** Logging in and then out leaves a session the route guard refuses, and
      logging in again opens it. */
  lemma {:induction false} LoginLogoutCycle(form: LoginPage.Form, flag: Flag)
    requires LoginPage.Credentials(form.username, form.password) in LoginPage.ValidUsers
    ensures AuthWrapper.Guard(LoginPage.HandleLogin(form, flag).flag) == AuthWrapper.RenderOutlet
    ensures AuthWrapper.Guard(Dashboard.HandleLogout(LoginPage.HandleLogin(form, flag).flag).flag)
              == AuthWrapper.Redirect(LoginRoute)
  {
  }
}
