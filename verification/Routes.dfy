/** Routes, updates and face-indexed route sets (route.hpp, rib-update.hpp, fib-update.hpp). */
module Routes {
  import opened Wrappers
  import opened Names

  datatype Route = Route(faceId: nat, origin: nat, flags: nat, cost: nat, expires: int) {
    // ROUTE_FLAG_CHILD_INHERIT is bit 0 of the flags, ROUTE_FLAG_CAPTURE is bit 1.
    predicate IsChildInherit() {
      flags % 2 == 1
    }

    predicate IsCapture() {
      flags / 2 % 2 == 1
    }

    predicate SameFaceAndOrigin(other: Route) {
      faceId == other.faceId && origin == other.origin
    }
  }

  datatype RibAction = Register | Unregister | RemoveFace

  datatype RibUpdate = RibUpdate(action: RibAction, name: Name, route: Route)

  datatype FibAction = AddNextHop | RemoveNextHop

  datatype FibUpdate = FibUpdate(name: Name, faceId: nat, cost: nat, action: FibAction)

  function AddUpdate(name: Name, faceId: nat, cost: nat): FibUpdate {
    FibUpdate(name, faceId, cost, AddNextHop)
  }

  function RemoveUpdate(name: Name, faceId: nat): FibUpdate {
    FibUpdate(name, faceId, 0, RemoveNextHop)
  }

  /** A std::set<Route> ordered by face: at most one route per face. */
  type RouteSet = map<nat, Route>

  predicate WellKeyed(s: RouteSet) {
    forall f :: f in s ==> s[f].faceId == f
  }

  /** std::set::insert keeps the element that is already there. */
  function InsertRoute(s: RouteSet, r: Route): RouteSet {
    if r.faceId in s then s else s[r.faceId := r]
  }

  // ----- searches in route lists -----

  /** The first route on the face. */
  function FindFace(routes: seq<Route>, f: nat): Option<Route> {
    if |routes| == 0 then None
    else if routes[0].faceId == f then Some(routes[0])
    else FindFace(routes[1..], f)
  }

  /** The first child-inherit route on the face. */
  function FindInherit(routes: seq<Route>, f: nat): Option<Route> {
    if |routes| == 0 then None
    else if routes[0].faceId == f && routes[0].IsChildInherit() then Some(routes[0])
    else FindInherit(routes[1..], f)
  }

  /** The position of the first route with the same face and origin, or the length of the list. */
  function Position(routes: seq<Route>, r: Route): (i: nat)
    ensures i <= |routes|
    ensures i < |routes| ==> routes[i].SameFaceAndOrigin(r)
    ensures forall j :: 0 <= j < i ==> !routes[j].SameFaceAndOrigin(r)
  {
    if |routes| == 0 || routes[0].SameFaceAndOrigin(r) then 0 else 1 + Position(routes[1..], r)
  }

  predicate AnyCapture(routes: seq<Route>) {
    exists i :: 0 <= i < |routes| && routes[i].IsCapture()
  }

  function CaptureCount(routes: seq<Route>): nat {
    if |routes| == 0 then 0
    else CaptureCount(routes[..|routes| - 1]) + if routes[|routes| - 1].IsCapture() then 1 else 0
  }

  predicate OneRoutePerFace(routes: seq<Route>) {
    forall i, j :: 0 <= i < j < |routes| ==> routes[i].faceId != routes[j].faceId
  }

  predicate UniqueRoutes(routes: seq<Route>) {
    forall i, j :: 0 <= i < j < |routes| ==> !routes[i].SameFaceAndOrigin(routes[j])
  }

  lemma {:induction false} FindFaceMeaning(routes: seq<Route>, f: nat)
    ensures FindFace(routes, f).Some? <==> exists i :: 0 <= i < |routes| && routes[i].faceId == f
    ensures FindFace(routes, f).Some? ==> FindFace(routes, f).value in routes && FindFace(routes, f).value.faceId == f
  {
    if |routes| > 0 {
      FindFaceMeaning(routes[1..], f);
      if i :| 1 <= i < |routes| && routes[i].faceId == f {
        assert routes[1..][i - 1].faceId == f;
      }
    }
  }

  lemma {:induction false} FindInheritMeaning(routes: seq<Route>, f: nat)
    ensures FindInherit(routes, f).Some? <==>
              exists i :: 0 <= i < |routes| && routes[i].faceId == f && routes[i].IsChildInherit()
    ensures FindInherit(routes, f).Some? ==>
              var r := FindInherit(routes, f).value;
              r in routes && r.faceId == f && r.IsChildInherit()
  {
    if |routes| > 0 {
      FindInheritMeaning(routes[1..], f);
      if i :| 1 <= i < |routes| && routes[i].faceId == f && routes[i].IsChildInherit() {
        assert routes[1..][i - 1].faceId == f;
      }
    }
  }

  predicate FirstInherit(routes: seq<Route>, i: nat, f: nat) {
    i < |routes| && routes[i].faceId == f && routes[i].IsChildInherit() &&
    forall j :: 0 <= j < i ==> !(routes[j].faceId == f && routes[j].IsChildInherit())
  }

  /** Of several child-inherit routes on a face the first one is handed down. */
  lemma {:induction false} FindInheritIsFirst(routes: seq<Route>, f: nat, r: Route)
    ensures FindInherit(routes, f) == Some(r) <==> exists i: nat :: FirstInherit(routes, i, f) && routes[i] == r
  {
    if |routes| > 0 {
      var rest := routes[1..];
      FindInheritIsFirst(rest, f, r);
      if routes[0].faceId == f && routes[0].IsChildInherit() {
        assert FirstInherit(routes, 0, f);
      } else {
        if i: nat :| FirstInherit(routes, i, f) && routes[i] == r {
          assert FirstInherit(rest, i - 1, f);
        }
        if i: nat :| FirstInherit(rest, i, f) && rest[i] == r {
          assert FirstInherit(routes, i + 1, f);
        }
      }
    }
  }

  lemma {:induction false} FindAppend(routes: seq<Route>, r: Route, f: nat)
    ensures FindFace(routes + [r], f) ==
            if FindFace(routes, f).Some? then FindFace(routes, f) else if r.faceId == f then Some(r) else None
    ensures FindInherit(routes + [r], f) ==
            if FindInherit(routes, f).Some? then FindInherit(routes, f)
            else if r.faceId == f && r.IsChildInherit() then Some(r) else None
  {
    if |routes| > 0 {
      assert (routes + [r])[1..] == routes[1..] + [r];
      FindAppend(routes[1..], r, f);
    }
  }

  lemma {:induction false} FindRemoved(routes: seq<Route>, i: nat, f: nat)
    requires i < |routes| && routes[i].faceId != f
    ensures FindFace(routes[..i] + routes[i + 1..], f) == FindFace(routes, f)
    ensures FindInherit(routes[..i] + routes[i + 1..], f) == FindInherit(routes, f)
  {
    var rest := routes[..i] + routes[i + 1..];
    if i == 0 {
      assert rest == routes[1..];
    } else {
      assert rest[1..] == routes[1..][..i - 1] + routes[1..][i..];
      FindRemoved(routes[1..], i - 1, f);
    }
  }

  lemma {:induction false} CaptureCountMeaning(routes: seq<Route>)
    ensures CaptureCount(routes) > 0 <==> AnyCapture(routes)
    ensures CaptureCount(routes) <= |routes|
  {
    if |routes| > 0 {
      var n := |routes| - 1;
      CaptureCountMeaning(routes[..n]);
      if i :| 0 <= i < n && routes[i].IsCapture() {
        assert routes[..n][i].IsCapture();
      }
    }
  }

  lemma {:induction false} CaptureCountSplit(a: seq<Route>, b: seq<Route>)
    ensures CaptureCount(a + b) == CaptureCount(a) + CaptureCount(b)
  {
    if |b| == 0 {
      assert a + b == a;
    } else {
      assert (a + b)[..|a + b| - 1] == a + b[..|b| - 1];
      CaptureCountSplit(a, b[..|b| - 1]);
    }
  }
}
