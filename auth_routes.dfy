/** The authentication router's table, only as far as needed to tell which
    controller a request reaches. The router is mounted under `/api/auth`, so
    the path it matches is the rest of the URL, and that always begins with
    `/`. */
module AuthRoutes {
  import opened UserModel

  datatype Verb = Get | Post

  datatype Handler =
    | RegisterHandler | LoginHandler | StatusHandler | LogoutHandler
    | SetupHandler | VerifyHandler | ResetHandler

  datatype Route = Route(verb: Verb, path: string, handler: Handler)

  /** The table as the router declares it; the reset route's path has no
      leading slash. */
  const WrittenRoutes: seq<Route> := [
    Route(Post, "/register", RegisterHandler),
    Route(Post, "/login", LoginHandler),
    Route(Get, "/status", StatusHandler),
    Route(Post, "/logout", LogoutHandler),
    Route(Post, "/2fa/setup", SetupHandler),
    Route(Post, "/2fa/verify", VerifyHandler),
    Route(Get, "2fa/reset", ResetHandler)]

  /** The same table with the reset route's path written `/2fa/reset`. */
  const CorrectedRoutes: seq<Route> := WrittenRoutes[..6] + [Route(Get, "/2fa/reset", ResetHandler)]

  /** A literal route path matches the request path exactly or with one
      trailing slash (Express routing is not strict). */
  predicate PathMatches(pattern: string, path: string) {
    path == pattern || path == pattern + "/"
  }

  predicate Accepts(route: Route, verb: Verb, path: string) {
    route.verb == verb && PathMatches(route.path, path)
  }

  /** The handler of the first route that accepts the request, or none (404). */
  function Dispatch(routes: seq<Route>, verb: Verb, path: string): (r: Option<Handler>)
    ensures r.None? <==> forall i :: 0 <= i < |routes| ==> !Accepts(routes[i], verb, path)
    ensures r.Some? ==>
      exists i :: 0 <= i < |routes| && Accepts(routes[i], verb, path) && routes[i].handler == r.value &&
        forall j :: 0 <= j < i ==> !Accepts(routes[j], verb, path)
    decreases |routes|
  {
    if routes == [] then None
    else if Accepts(routes[0], verb, path) then Some(routes[0].handler)
    else
      var r := Dispatch(routes[1..], verb, path);
      assert forall i :: 1 <= i < |routes| ==> routes[i] == routes[1..][i - 1];
      if r.Some? then
        var k :| 0 <= k < |routes[1..]| && Accepts(routes[1..][k], verb, path) &&
          routes[1..][k].handler == r.value &&
          forall j :: 0 <= j < k ==> !Accepts(routes[1..][j], verb, path);
        assert Accepts(routes[k + 1], verb, path) && routes[k + 1].handler == r.value;
        r
      else r
  }

  /** A handler that no accepting route carries is never chosen. */
  lemma DispatchNeverChooses(routes: seq<Route>, verb: Verb, path: string, h: Handler)
    requires forall i :: 0 <= i < |routes| && routes[i].handler == h ==> !Accepts(routes[i], verb, path)
    ensures Dispatch(routes, verb, path) != Some(h)
  {
  }

  /** As written, no request path (all begin with `/`) reaches `reset2FA`. */
  lemma WrittenResetUnreachable(verb: Verb, path: string)
    requires |path| > 0 && path[0] == '/'
    ensures Dispatch(WrittenRoutes, verb, path) != Some(ResetHandler)
  {
    forall i | 0 <= i < |WrittenRoutes| && WrittenRoutes[i].handler == ResetHandler
      ensures !Accepts(WrittenRoutes[i], verb, path)
    {
      assert i == 6;
      assert WrittenRoutes[i].path[0] == '2';
    }
    DispatchNeverChooses(WrittenRoutes, verb, path, ResetHandler);
  }

  /** With the leading slash, `GET /2fa/reset` reaches `reset2FA`, and every
      other route is as declared. */
  lemma CorrectedResetReachable()
    ensures Dispatch(CorrectedRoutes, Get, "/2fa/reset") == Some(ResetHandler)
    ensures CorrectedRoutes[..6] == WrittenRoutes[..6] && |CorrectedRoutes| == |WrittenRoutes|
  {
    forall i | 0 <= i < 6
      ensures !Accepts(CorrectedRoutes[i], Get, "/2fa/reset")
    {
      assert CorrectedRoutes[i] == WrittenRoutes[i];
    }
    assert Accepts(CorrectedRoutes[6], Get, "/2fa/reset");
  }
}
