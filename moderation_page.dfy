/**
 * The moderation page's gate: where the route effect navigates and what the page renders,
 * as a decision over the auth state (still loading, signed in, admin).
 */
module ModerationPage {

  datatype Navigation = Stay | NavigateTo(path: string)

  datatype PageView = LoadingSpinner | Nothing | AdminTabs

  /** The route effect: nothing while loading; "/auth" without a user; "/" for a non-admin. */
  function RouteEffect(loading: bool, signedIn: bool, isAdmin: bool): (n: Navigation)
    ensures loading ==> n == Stay
    ensures !loading && !signedIn ==> n == NavigateTo("/auth")
    ensures !loading && signedIn && !isAdmin ==> n == NavigateTo("/")
    ensures n == Stay <==> loading || (signedIn && isAdmin)
  {
    if loading then Stay
    else if !signedIn then NavigateTo("/auth")
    else if !isAdmin then NavigateTo("/")
    else Stay
  }

  /** What the page renders. */
  function Render(loading: bool, signedIn: bool, isAdmin: bool): (v: PageView)
    ensures v == LoadingSpinner <==> loading
    ensures v == AdminTabs <==> !loading && signedIn && isAdmin
    ensures v == Nothing <==> !loading && (!signedIn || !isAdmin)
  {
    if loading then LoadingSpinner
    else if !signedIn || !isAdmin then Nothing
    else AdminTabs
  }

  /**
   * The effect and the render agree: the page renders nothing exactly when it navigates
   * away, and the admin tabs only when it stays after loading.
   */
  lemma GateConsistent(loading: bool, signedIn: bool, isAdmin: bool)
    ensures Render(loading, signedIn, isAdmin) == Nothing <==> RouteEffect(loading, signedIn, isAdmin).NavigateTo?
    ensures Render(loading, signedIn, isAdmin) == AdminTabs <==> !loading && RouteEffect(loading, signedIn, isAdmin) == Stay
  {
  }
}
