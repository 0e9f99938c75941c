/**
 * The route guard wrapped around every page. It decides, from the signed-in
 * state and the current path, whether to send the browser to `/login` or to
 * `/learn`, and whether to show a placeholder, nothing, or the page. Until a
 * zero-delay timer has fired the guard is "checking" and treats the user as
 * signed out.
 */
module AuthGuard {
  import opened Wrappers

  /** The paths anyone may open. */
  const PublicPaths: seq<string> := ["/login", "/register", "/"]

  predicate IsPublic(path: string)
  {
    path in PublicPaths
  }

  /** A snapshot of the authentication store: the flag and the token (`null` is `None`). */
  datatype AuthState = AuthState(isAuthenticated: bool, token: Option<string>)

  datatype Redirect = NoRedirect | ToLogin | ToLearn

  /** What the guard shows. */
  datatype View = Placeholder | Nothing | Children

  /** A token is truthy when it is present and not the empty string. */
  predicate HasToken(token: Option<string>)
  {
    token.Some? && token.value != ""
  }

  predicate SignedIn(auth: AuthState)
  {
    auth.isAuthenticated && HasToken(auth.token)
  }

  /** The store values the guard acts on: the real ones once hydrated, signed out before. */
  function EffectiveAuth(hydrated: bool, auth: AuthState): (r: AuthState)
    ensures hydrated ==> r == auth
    ensures !hydrated ==> !r.isAuthenticated && !HasToken(r.token)
  {
    if hydrated then auth else AuthState(false, None)
  }

  /** The redirect effect, evaluated on the effective store values. */
  function RedirectFor(auth: AuthState, path: string): (r: Redirect)
    ensures r == ToLogin <==> !SignedIn(auth) && !IsPublic(path)
    ensures r == ToLearn <==> SignedIn(auth) && (path == "/login" || path == "/register")
  {
    if !SignedIn(auth) && !IsPublic(path) then ToLogin
    else if SignedIn(auth) && (path == "/login" || path == "/register") then ToLearn
    else NoRedirect
  }

  /**
   * The render decision: the placeholder while checking, then nothing on a
   * protected path for a user whose flag is false, otherwise the page.
   */
  function ViewFor(isChecking: bool, auth: AuthState, path: string): (r: View)
    ensures isChecking <==> r == Placeholder
    ensures r == Nothing <==> !isChecking && !auth.isAuthenticated && !IsPublic(path)
  {
    if isChecking then Placeholder
    else if !auth.isAuthenticated && !IsPublic(path) then Nothing
    else Children
  }

  /** The public paths are exactly `/login`, `/register` and `/`. */
  lemma PublicPathsExact(path: string)
    ensures IsPublic(path) <==> path == "/login" || path == "/register" || path == "/"
  {
  }

  /**
   * What each redirect means: a signed-in user is never sent to `/login`; a
   * user who is not signed in is sent to `/login` from every protected path;
   * `/learn` is reached only from the two sign-in pages; `/` never redirects.
   */
  lemma RedirectOutcomes(auth: AuthState, path: string)
    ensures SignedIn(auth) ==> RedirectFor(auth, path) != ToLogin
    ensures !SignedIn(auth) ==> RedirectFor(auth, path) != ToLearn
    ensures RedirectFor(auth, path) == ToLogin ==> path != "/login" && path != "/register" && path != "/"
    ensures path == "/" ==> RedirectFor(auth, path) == NoRedirect
    ensures !SignedIn(auth) && path == "/register" ==> RedirectFor(auth, path) == NoRedirect
  {
    PublicPathsExact(path);
  }

  /**
   * Before hydration the guard acts as if signed out: every protected path
   * redirects to `/login`, no path redirects to `/learn`, and once the
   * placeholder is gone nothing protected is shown.
   */
  lemma BeforeHydrationSignedOut(auth: AuthState, path: string)
    ensures var e := EffectiveAuth(false, auth);
      && RedirectFor(e, path) == (if IsPublic(path) then NoRedirect else ToLogin)
      && ViewFor(false, e, path) == (if IsPublic(path) then Children else Nothing)
  {
  }

  /**
   * The render decision consults the flag only, never the token: with the
   * flag set, the page shows on every path whatever the token is.
   */
  lemma ViewIgnoresToken(isChecking: bool, flag: bool, t1: Option<string>, t2: Option<string>, path: string)
    ensures ViewFor(isChecking, AuthState(flag, t1), path) == ViewFor(isChecking, AuthState(flag, t2), path)
    ensures !isChecking && flag ==> ViewFor(isChecking, AuthState(flag, t1), path) == Children
  {
  }

  /**
   * A flagged user without a token on a protected path is sent to `/login`
   * while the page is still shown.
   */
  lemma FlagWithoutTokenShowsPage(path: string)
    requires !IsPublic(path)
    ensures RedirectFor(AuthState(true, None), path) == ToLogin
    ensures ViewFor(false, AuthState(true, None), path) == Children
  {
  }

  /**
   * The redirect effect of the guard, on the store values as the hydration
   * rule lets it see them: before hydration every protected path redirects
   * to `/login`, whatever the store holds.
   */
  function GuardRedirect(hydrated: bool, auth: AuthState, path: string): (r: Redirect)
    ensures hydrated ==> r == RedirectFor(auth, path)
    ensures !hydrated ==> (r == ToLogin <==> !IsPublic(path))
  {
    RedirectFor(EffectiveAuth(hydrated, auth), path)
  }

  /**
   * The guard's own state: whether the store values may be used, and
   * whether the placeholder is still up. Both change together when the
   * zero-delay timer fires.
   */
  class Guard {
    var hydrated: bool
    var isChecking: bool

    predicate Valid()
      reads this
    {
      hydrated == !isChecking
    }

    constructor()
      ensures Valid()
      ensures !hydrated && isChecking
    {
      hydrated := false;
      isChecking := true;
    }

    /** The timer callback: hydrated, and the check is over. */
    method TimerFires()
      modifies this
      ensures Valid()
      ensures hydrated && !isChecking
    {
      hydrated := true;
      isChecking := false;
    }

    /** One evaluation of the redirect effect for the current store values and path. */
    method Evaluate(auth: AuthState, path: string) returns (r: Redirect)
      requires Valid()
      ensures r == GuardRedirect(hydrated, auth, path)
      ensures r == ToLogin <==> !SignedIn(EffectiveAuth(hydrated, auth)) && !IsPublic(path)
    {
      var e := EffectiveAuth(hydrated, auth);
      r := RedirectFor(e, path);
    }

    /** One render for the current store values and path. */
    method Render(auth: AuthState, path: string) returns (v: View)
      requires Valid()
      ensures v == ViewFor(isChecking, EffectiveAuth(hydrated, auth), path)
      ensures v == Placeholder <==> !hydrated
      ensures v == Children ==> hydrated && (auth.isAuthenticated || IsPublic(path))
    {
      v := ViewFor(isChecking, EffectiveAuth(hydrated, auth), path);
    }
  }
}
