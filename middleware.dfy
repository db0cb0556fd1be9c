/**
 * The routing decision of src/middleware.ts. Whether a session exists is a
 * parameter; the decision is a function of it and the request path. The
 * `config.matcher` pattern decides which paths reach the decision at all.
 */
module Middleware {
  import opened Strings

  datatype Decision =
    | RedirectToLogin(returnUrl: string)   // to `/login?returnUrl=<path>`
    | RedirectToDashboard
    | Continue

  const ProtectedRoutes: seq<string> := ["/dashboard", "/polls/new"]

  /** `protectedRoutes.some(route => pathname.startsWith(route))`: a plain prefix test. */
  predicate IsProtected(path: string) {
    exists k | 0 <= k < |ProtectedRoutes| :: StartsWith(path, ProtectedRoutes[k])
  }

  predicate IsAuthRoute(path: string) {
    StartsWith(path, "/auth")
  }

  function Decide(path: string, isLoggedIn: bool): (d: Decision)
    ensures d.RedirectToLogin? <==> IsProtected(path) && !isLoggedIn
    ensures d.RedirectToLogin? ==> d.returnUrl == path
    ensures d.RedirectToDashboard? <==> isLoggedIn && IsAuthRoute(path)
    ensures d.Continue? <==> (isLoggedIn || !IsProtected(path)) && !(isLoggedIn && IsAuthRoute(path))
  {
    if IsProtected(path) && !isLoggedIn then RedirectToLogin(path)
    else if isLoggedIn && IsAuthRoute(path) then RedirectToDashboard
    else Continue
  }

  /** The protected prefixes and `/auth` never both apply, so at most one redirect condition holds. */
  lemma PrefixesDisjoint(path: string)
    ensures !(IsProtected(path) && IsAuthRoute(path))
  {
    assert IsAuthRoute(path) ==> path[1] == 'a';
    assert StartsWith(path, ProtectedRoutes[0]) ==> path[1] == 'd';
    assert StartsWith(path, ProtectedRoutes[1]) ==> path[1] == 'p';
  }

  /** The prefix test is not a path-segment test. */
  lemma PrefixNotSegment()
    ensures IsProtected("/dashboardx") && IsProtected("/polls/newest")
    ensures Decide("/dashboardx", false) == RedirectToLogin("/dashboardx")
    ensures !IsProtected("/polls") && Decide("/polls", false) == Continue
  {
    assert StartsWith("/dashboardx", ProtectedRoutes[0]);
    assert StartsWith("/polls/newest", ProtectedRoutes[1]);
  }

  /** A logged-in user is never sent to the login page; a visitor is never sent to the dashboard. */
  lemma SessionDecidesRedirectKind(path: string)
    ensures !Decide(path, true).RedirectToLogin?
    ensures !Decide(path, false).RedirectToDashboard?
    ensures !IsProtected(path) && !IsAuthRoute(path) ==> Decide(path, true) == Continue && Decide(path, false) == Continue
  {
  }

  // ---------------------------------------------------------------------
  // config.matcher: '/((?!_next/static|_next/image|_next|favicon.ico|auth|api).*)'
  // ---------------------------------------------------------------------

  /** The alternatives of the negative look-ahead, in order. */
  const Excluded: seq<string> := ["_next/static", "_next/image", "_next", "favicon.ico", "auth", "api"]

  /** `pat` matches at the start of `s`, where `.` in `pat` stands for any one character. */
  predicate MatchesPrefix(s: string, pat: string) {
    |pat| <= |s| && forall k :: 0 <= k < |pat| ==> pat[k] == '.' || pat[k] == s[k]
  }

  /** The request reaches the middleware: a `/` whose remainder starts with none of the excluded alternatives. */
  predicate Matched(path: string) {
    |path| >= 1 && path[0] == '/'
    && forall k | 0 <= k < |Excluded| :: !MatchesPrefix(path[1..], Excluded[k])
  }

  /**
   * The excluded alternatives reduce to four prefixes: `_next` covers its two
   * longer forms, and the dot in `favicon.ico` matches any character.
   */
  lemma MatchedIff(path: string)
    ensures Matched(path) <==>
      |path| >= 1 && path[0] == '/'
      && !StartsWith(path[1..], "_next") && !StartsWith(path[1..], "auth") && !StartsWith(path[1..], "api")
      && !(|path| >= 12 && path[1..8] == "favicon" && path[9..12] == "ico")
  {
    if |path| >= 1 && path[0] == '/' {
      var rest := path[1..];
      assert MatchesPrefix(rest, Excluded[2]) <==> StartsWith(rest, "_next");
      assert MatchesPrefix(rest, Excluded[4]) <==> StartsWith(rest, "auth");
      assert MatchesPrefix(rest, Excluded[5]) <==> StartsWith(rest, "api");
      assert MatchesPrefix(rest, Excluded[0]) ==> MatchesPrefix(rest, Excluded[2]);
      assert MatchesPrefix(rest, Excluded[1]) ==> MatchesPrefix(rest, Excluded[2]);
      assert MatchesPrefix(rest, Excluded[3]) <==> |path| >= 12 && path[1..8] == "favicon" && path[9..12] == "ico" by {
        if |path| >= 12 {
          assert rest[..7] == path[1..8] && rest[8..11] == path[9..12];
        }
      }
    }
  }

  /** Matched requests never take the redirect-away-from-auth branch. */
  lemma MatchedNeverAuthRoute(path: string, isLoggedIn: bool)
    requires Matched(path)
    ensures !IsAuthRoute(path)
    ensures Decide(path, isLoggedIn) != RedirectToDashboard
  {
    MatchedIff(path);
  }

  /** The exclusion is a prefix test too: `/authors` and `/apiary` bypass the middleware. */
  lemma ExclusionIsPrefix()
    ensures !Matched("/authors") && !Matched("/apiary") && !Matched("/favicon-ico")
    ensures Matched("/dashboard")
  {
    MatchedIff("/authors");
    MatchedIff("/apiary");
    MatchedIff("/favicon-ico");
    MatchedIff("/dashboard");
    assert "/authors"[1..][..4] == "auth";
    assert "/apiary"[1..][..3] == "api";
    assert "/favicon-ico"[1..8] == "favicon" && "/favicon-ico"[9..12] == "ico";
    var rest := "/dashboard"[1..];
    assert rest[0] == 'd';
    assert !StartsWith(rest, "_next") && !StartsWith(rest, "auth") && !StartsWith(rest, "api");
  }
}
