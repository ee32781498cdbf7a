/** The routes of a table by name, face and origin, and how each change of the RIB affects them (rib.cpp). */
module RibRoutes {
  import opened Wrappers
  import opened Names
  import opened Routes
  import opened RibModel
  import opened RibTable

  /** The route with the face and origin. */
  function RouteOf(routes: seq<Route>, f: nat, o: nat): Option<Route> {
    if |routes| == 0 then None
    else if routes[0].faceId == f && routes[0].origin == o then Some(routes[0])
    else RouteOf(routes[1..], f, o)
  }

  function RouteAt(t: Table, n: Name, f: nat, o: nat): Option<Route> {
    if n in t then RouteOf(t[n].routes, f, o) else None
  }

  lemma {:induction false} RouteOfMeaning(routes: seq<Route>, r: Route)
    requires UniqueRoutes(routes)
    ensures r in routes <==> RouteOf(routes, r.faceId, r.origin) == Some(r)
  {
    if |routes| > 0 {
      assert UniqueRoutes(routes[1..]);
      RouteOfMeaning(routes[1..], r);
      assert routes == [routes[0]] + routes[1..];
      if r in routes[1..] {
        var i :| 0 <= i < |routes[1..]| && routes[1..][i] == r;
        assert routes[i + 1] == r;
      }
    }
  }

  lemma {:induction false} RouteOfAbsent(routes: seq<Route>, f: nat, o: nat)
    ensures RouteOf(routes, f, o) == None <==>
            forall i :: 0 <= i < |routes| ==> !(routes[i].faceId == f && routes[i].origin == o)
  {
    if |routes| > 0 {
      RouteOfAbsent(routes[1..], f, o);
      assert forall i :: 1 <= i < |routes| ==> routes[1..][i - 1] == routes[i];
    }
  }

  lemma {:induction false} RouteOfUpdated(routes: seq<Route>, r: Route, f: nat, o: nat)
    ensures var i := Position(routes, r);
            RouteOf(if i < |routes| then routes[i := r] else routes + [r], f, o) ==
            if r.faceId == f && r.origin == o then Some(r) else RouteOf(routes, f, o)
  {
    if |routes| > 0 {
      var i := Position(routes, r);
      RouteOfUpdated(routes[1..], r, f, o);
      if i == 0 {
        assert routes[0 := r][1..] == routes[1..];
      } else if i < |routes| {
        assert routes[i := r][1..] == routes[1..][i - 1 := r];
      } else {
        assert (routes + [r])[1..] == routes[1..] + [r];
      }
    }
  }

  lemma {:induction false} RouteOfErased(routes: seq<Route>, i: nat, f: nat, o: nat)
    requires i < |routes| && UniqueRoutes(routes)
    ensures RouteOf(routes[..i] + routes[i + 1..], f, o) ==
            if routes[i].faceId == f && routes[i].origin == o then None else RouteOf(routes, f, o)
  {
    var rest := routes[..i] + routes[i + 1..];
    if i == 0 {
      assert rest == routes[1..];
      RouteOfAbsent(routes[1..], f, o);
    } else {
      assert rest[1..] == routes[1..][..i - 1] + routes[1..][i..];
      RouteOfErased(routes[1..], i - 1, f, o);
    }
  }

  /** insert replaces the route with the same name, face and origin, or adds one, and leaves all others alone. */
  lemma InsertedAt(t: Table, p: Name, r: Route, n: Name, f: nat, o: nat)
    ensures RouteAt(Inserted(t, p, r), n, f, o) ==
            if n == p && f == r.faceId && o == r.origin then Some(r) else RouteAt(t, n, f, o)
  {
    var routes := if p in t then t[p].routes else [];
    var i := Position(routes, r);
    RouteOfUpdated(routes, r, f, o);
    if i < |routes| {
      assert routes[i].(flags := r.flags, cost := r.cost, expires := r.expires) == r;
    }
  }

  /** erase takes exactly the route with the same name, face and origin. */
  lemma ErasedAt(t: Table, p: Name, r: Route, n: Name, f: nat, o: nat)
    requires RoutesOk(t)
    ensures RouteAt(Erased(t, p, r), n, f, o) ==
            if n == p && f == r.faceId && o == r.origin then None else RouteAt(t, n, f, o)
  {
    if p in t {
      var routes := t[p].routes;
      var i := Position(routes, r);
      if i < |routes| {
        RouteOfErased(routes, i, f, o);
      } else {
        RouteOfAbsent(routes, r.faceId, r.origin);
      }
    }
  }

  lemma ErasedOk(t: Table, p: Name, r: Route)
    requires RoutesOk(t)
    ensures RoutesOk(Erased(t, p, r))
  {
    if p in t && Position(t[p].routes, r) < |t[p].routes| {
      RoutesAfterErase(t, p, Position(t[p].routes, r));
    }
  }

  lemma InTable(t: Table, n: Name)
    requires RoutesOk(t)
    ensures n in t <==> exists f: nat, o: nat :: RouteAt(t, n, f, o).Some?
  {
    if n in t {
      var r := t[n].routes[0];
      assert RouteAt(t, n, r.faceId, r.origin) == Some(r);
    }
  }

  /** Inherited records change no routes. */
  lemma {:induction false} RecordsKeepRoutes(t: Table, us: seq<RibUpdate>)
    ensures ApplyRecords(t, us).Keys == t.Keys && forall n :: n in t ==> ApplyRecords(t, us)[n].routes == t[n].routes
  {
    if |us| > 0 {
      RecordsKeepRoutes(ApplyRecord(t, us[0]), us[1..]);
    }
  }
}
