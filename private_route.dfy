/** The client's route guard: a page under it renders only for a signed-in
    user whose role is among the guard's roles, when it names any. */
module PrivateRoute {
  import opened Common
  import opened AuthController

  /** What the guard renders: a redirect, or the nested page. */
  datatype Render = RedirectTo(path: string) | Outlet

  /** `PrivateRoute({ roles })`. A roles list that is given, even an empty
      one, is checked: an empty array is truthy. */
  function Decide(user: Option<Profile>, roles: Option<seq<string>>): (r: Render)
    ensures r.Outlet? <==> user.Some? && (roles.None? || user.value.role in roles.value)
    ensures user.None? ==> r == RedirectTo("/login")
    ensures user.Some? && roles.Some? && user.value.role !in roles.value ==> r == RedirectTo("/")
  {
    if user.None? then RedirectTo("/login")
    else if roles.Some? && user.value.role !in roles.value then RedirectTo("/")
    else Outlet
  }

  /** A guard given an empty list admits nobody: signed-out users go to the
      login page and everyone else to the root. */
  lemma EmptyRolesAdmitNobody(user: Option<Profile>)
    ensures Decide(user, Some([])) == if user.None? then RedirectTo("/login") else RedirectTo("/")
  {
  }

  /** Widening the roles list never turns away a user it admitted. */
  lemma WiderRolesAdmitMore(user: Option<Profile>, roles: seq<string>, more: seq<string>)
    requires Decide(user, Some(roles)).Outlet?
    ensures Decide(user, Some(roles + more)).Outlet?
  {
  }
}
