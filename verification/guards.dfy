/** The route guards: what `RoleRoute`, `ProtectedRoute` and the client area's layout show for
    a session state. The session (`ready`, `isAuth`, the current user) is a parameter. */
module Guards {
  import opened Wrappers
  import Js
  import Text

  /** The signed-in user as the guards see it: only the role, which may be missing. */
  datatype SessionUser = SessionUser(rol: Js.Value)

  /** What a guard renders: nothing, the session-loading notice, a redirect, or the guarded
      content. */
  datatype View = Nothing | Loading | Go(to: string) | Show

  /** `String(user.rol || "").toLowerCase()` */
  function RoleKey(rol: Js.Value): (k: string)
    ensures !Js.Truthy(rol) ==> k == ""
    ensures rol.Str? ==> k == Text.Lower(rol.s)
  {
    Text.Lower(Js.ToStr(Js.Or(rol, Js.Str(""))))
  }

  /** `allow.map(a => String(a).toLowerCase())` */
  function LowerAll(allow: seq<string>): (r: seq<string>)
    ensures |r| == |allow|
    ensures forall i :: 0 <= i < |allow| ==> r[i] == Text.Lower(allow[i])
  {
    seq(|allow|, i requires 0 <= i < |allow| => Text.Lower(allow[i]))
  }

  /** Where a role that may not enter is sent: its own panel. */
  function HomeOf(rol: string): (to: string)
    ensures to == "/admin/clases" <==> rol == "admin"
    ensures to != "/admin/clases" ==> to == "/cliente/clases"
  {
    if rol == "admin" then "/admin/clases" else "/cliente/clases"
  }

  /** `RoleRoute`: loading while the session is not ready, there is no user or its role is
      undefined; then the login page when not authenticated; then, if the allow list is not
      empty and the role is not on it (both compared lower-cased), the role's own panel;
      otherwise the content. */
  function RoleRoute(ready: bool, user: Option<SessionUser>, isAuth: bool, allow: seq<string>): (v: View)
    ensures v == Loading <==> !ready || user.None? || user.value.rol.Undefined?
    ensures v == Go("/login") <==> ready && user.Some? && !user.value.rol.Undefined? && !isAuth
    ensures v == Show <==>
      && ready && user.Some? && !user.value.rol.Undefined? && isAuth
      && (allow == [] || RoleKey(user.value.rol) in LowerAll(allow))
    ensures v.Go? && v.to != "/login" ==>
      && allow != [] && RoleKey(user.value.rol) !in LowerAll(allow)
      && v.to == HomeOf(RoleKey(user.value.rol))
    ensures v != Nothing
  {
    if !ready || user.None? || user.value.rol.Undefined? then Loading
    else if !isAuth then Go("/login")
    else
      var rol := RoleKey(user.value.rol);
      var allowed := LowerAll(allow);
      if |allowed| > 0 && rol !in allowed then Go(HomeOf(rol)) else Show
  }

  /** An empty allow list admits every authenticated user whose role is known. */
  lemma EmptyAllowAdmitsAll(u: SessionUser)
    requires !u.rol.Undefined?
    ensures RoleRoute(true, Some(u), true, []) == Show
  {
  }

  /** Role comparison ignores case on both sides: upper-casing letters of the role or of the
      allow list changes nothing. */
  lemma RoleRouteIgnoresCase(ready: bool, s: string, isAuth: bool, allow: seq<string>)
    ensures RoleRoute(ready, Some(SessionUser(Js.Str(s))), isAuth, allow)
         == RoleRoute(ready, Some(SessionUser(Js.Str(Text.Lower(s)))), isAuth, LowerAll(allow))
  {
    Text.LowerIdempotent(s);
    var la := LowerAll(allow);
    assert LowerAll(la) == la by {
      forall i | 0 <= i < |la| ensures LowerAll(la)[i] == la[i] {
        Text.LowerIdempotent(allow[i]);
      }
    }
    if s == [] {
      assert Text.Lower(s) == [];
    }
  }

  /** An administrator turned away from a route is sent to a route that admits "admin". */
  lemma AdminRedirectAdmitted(u: SessionUser, allow: seq<string>)
    requires RoleRoute(true, Some(u), true, allow) == Go("/admin/clases")
    ensures RoleRoute(true, Some(u), true, ["admin"]) == Show
  {
    assert RoleKey(u.rol) == "admin";
    assert LowerAll(["admin"]) == [Text.Lower("admin")];
    assert Text.Lower("admin") == "admin";
  }

  /** `ProtectedRoute`: nothing until ready, then the login page unless authenticated. */
  function ProtectedRoute(ready: bool, isAuth: bool): (v: View)
    ensures v == Nothing <==> !ready
    ensures v == Go("/login") <==> ready && !isAuth
    ensures v == Show <==> ready && isAuth
  {
    if !ready then Nothing else if !isAuth then Go("/login") else Show
  }

  /** The client area's layout: nothing until ready, the login page without a user, the home
      page for any role other than "limmerchant" (compared lower-cased), else the client area. */
  function ClienteLayout(ready: bool, user: Option<SessionUser>): (v: View)
    ensures v == Nothing <==> !ready
    ensures v == Go("/login") <==> ready && user.None?
    ensures v == Go("/") <==> ready && user.Some? && RoleKey(user.value.rol) != "limmerchant"
    ensures v == Show <==> ready && user.Some? && RoleKey(user.value.rol) == "limmerchant"
  {
    if !ready then Nothing
    else if user.None? then Go("/login")
    else if RoleKey(user.value.rol) != "limmerchant" then Go("/")
    else Show
  }

  /** For an authenticated session with a known role, the client layout admits exactly the users
      a `RoleRoute` allowing only "limmerchant" admits. */
  lemma LayoutAgreesWithRoleRoute(u: SessionUser)
    requires !u.rol.Undefined?
    ensures ClienteLayout(true, Some(u)) == Show <==> RoleRoute(true, Some(u), true, ["limmerchant"]) == Show
  {
    assert LowerAll(["limmerchant"]) == [Text.Lower("limmerchant")];
    assert Text.Lower("limmerchant") == "limmerchant";
  }

  /** For a user whose role is known, `RoleRoute` with an empty allow list and `ProtectedRoute`
      agree on when the content shows and when the login page is shown; they differ only while
      the session is not ready, where one shows the loading notice and the other nothing. */
  lemma ProtectedAgreesWithRoleRoute(ready: bool, u: SessionUser, isAuth: bool)
    requires !u.rol.Undefined?
    ensures RoleRoute(ready, Some(u), isAuth, []) == Show <==> ProtectedRoute(ready, isAuth) == Show
    ensures RoleRoute(ready, Some(u), isAuth, []) == Go("/login") <==> ProtectedRoute(ready, isAuth) == Go("/login")
    ensures RoleRoute(ready, Some(u), isAuth, []) == Loading <==> ProtectedRoute(ready, isAuth) == Nothing
  {
  }
}
