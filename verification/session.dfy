/** The stub session: the single `isAuthenticated` entry of localStorage, and
    the two routes the login, logout and guard code navigate between.
 */
module Session {

  /** `localStorage.getItem('isAuthenticated')`: absent, or the stored string. */
  datatype Flag = Absent | Stored(value: string)

  datatype Path = LoginRoute | DashboardRoute

  /** The only stored value the route guard accepts. */
  const Authenticated: string := "true"
}
