/** The route guard in front of the dashboard. It reads the session flag and
    returns a decision; it has no way to write the flag.
 */
module AuthWrapper {
  import opened Session

  /** Render the protected child route, or redirect (replacing history). */
  datatype Decision = RenderOutlet | Redirect(to: Path)

  function Guard(flag: Flag): (d: Decision)
    ensures d.RenderOutlet? <==> flag == Stored("true")
    ensures d.Redirect? ==> d.to == LoginRoute
  {
    if flag == Stored(Authenticated) then RenderOutlet else Redirect(LoginRoute)
  }
}
