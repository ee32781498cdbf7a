/** Registering a route again with its capture flag changed (fib-updater.cpp, createFibUpdatesForUpdatedRoute). */
module FibFlips {
  import opened Wrappers
  import opened Names
  import opened Routes
  import opened RibModel
  import opened FibUpdates
  import opened FibWalk
  import opened FibAgreement

  /** The route is the only one of its face, and gains or loses the capture flag. */
  predicate FitsFlip(t: Table, p: Name, r: Route) {
    p in t && Position(t[p].routes, r) < |t[p].routes| && OneRoutePerFace(t[p].routes) && CounterExact(t[p]) &&
    t[p].routes[Position(t[p].routes, r)].IsCapture() != r.IsCapture()
  }

  function Was(t: Table, p: Name, r: Route): Route
    requires FitsFlip(t, p, r)
  {
    t[p].routes[Position(t[p].routes, r)]
  }

  /** The RIB after the registration, with the counter set to the number of capture routes; the code leaves it alone. */
  function Recounted(t: Table, p: Name, r: Route): Table
    requires FitsFlip(t, p, r)
  {
    var e := InsertIntoEntry(t[p], r);
    t[p := e.(nCaptures := CaptureCount(e.routes))]
  }

  /** What the computation leaves at a name and face. */
  function FlipCell(t: Table, p: Name, r: Route, d: Name, f: nat): Cell
    requires FitsFlip(t, p, r)
  {
    var e := InsertIntoEntry(t[p], r);
    UpdatedRouteCell(t, e, p, r, Was(t, p, r), FindInherit(e.routes, r.faceId), d, f, NOTHING)
  }

  predicate FlipRightAt(t: Table, p: Name, r: Route, d: Name, f: nat)
    requires FitsFlip(t, p, r)
  {
    Wanted(Recounted(t, p, r), d, f) == Outcome(FlipCell(t, p, r, d, f).pending, Wanted(t, d, f))
  }

  /** Capture comes on: a route that p itself hands down is taken from d, or d keeps the old cost. */
  predicate OnGoesWrong(t: Table, p: Name, r: Route, d: Name, f: nat)
    requires FitsFlip(t, p, r)
  {
    var was := Was(t, p, r);
    Dependent(t, p, d, f) &&
    if f != r.faceId then t[p].HasChildInherit(f) && Nearest(t, p, f).Some?
    else r.IsChildInherit() &&
         if was.IsChildInherit() then Nearest(t, p, f).Some? || r.cost != was.cost
         else !t[p].HasCapture() && Nearest(t, p, f).Some?
  }

  /**
   * Capture goes off: an ancestor's route comes to p or d although another route still captures, or replaces one that p
   * hands down, or d keeps the old cost.
   */
  predicate OffGoesWrong(t: Table, p: Name, r: Route, d: Name, f: nat)
    requires FitsFlip(t, p, r)
  {
    var was, anc, e := Was(t, p, r), Nearest(t, p, f), Recounted(t, p, r)[p];
    if d == p then anc.Some? && !t[p].HasFace(f) && e.HasCapture()
    else
      Dependent(t, p, d, f) &&
      if anc.None? then f == r.faceId && was.IsChildInherit() && r.IsChildInherit() && r.cost != was.cost
      else if e.HasChildInherit(f) then FindInherit(e.routes, f).value.cost != anc.value.cost
      else e.HasCapture()
  }

  predicate FlipGoesWrong(t: Table, p: Name, r: Route, d: Name, f: nat)
    requires FitsFlip(t, p, r)
  {
    if r.IsCapture() then OnGoesWrong(t, p, r, d, f) else OffGoesWrong(t, p, r, d, f)
  }

  lemma {:induction false} CountReplaced(routes: seq<Route>, i: nat, r: Route)
    requires i < |routes|
    ensures r.IsCapture() ==> CaptureCount(routes[i := r]) > 0
    ensures routes[i].IsCapture() ==> CaptureCount(routes) > 0
  {
    CaptureCountMeaning(routes);
    CaptureCountMeaning(routes[i := r]);
    assert routes[i := r][i] == r;
  }

  /** What the name hands down before and after, and who captures. */
  lemma FlipAtP(t: Table, p: Name, r: Route, f: nat)
    requires FitsFlip(t, p, r)
    ensures var u, was := Recounted(t, p, r), Was(t, p, r);
            DifferAt(t, u, p) && Nearest(u, p, f) == Nearest(t, p, f) &&
            (r.IsCapture() ==> u[p].HasCapture()) && (!r.IsCapture() ==> t[p].HasCapture()) &&
            (if f == r.faceId then
               FindFace(t[p].routes, f) == Some(was) && FindFace(u[p].routes, f) == Some(r) &&
               FindInherit(t[p].routes, f) == (if was.IsChildInherit() then Some(was) else None) &&
               FindInherit(u[p].routes, f) == (if r.IsChildInherit() then Some(r) else None)
             else FindFace(u[p].routes, f) == FindFace(t[p].routes, f) &&
                  FindInherit(u[p].routes, f) == FindInherit(t[p].routes, f)) &&
            FindInherit(u[p].routes, r.faceId) == (if r.IsChildInherit() then Some(r) else None) &&
            LowestCost(u[p].routes, r.faceId, false) == Some(r.cost)
  {
    var i := Position(t[p].routes, r);
    ChangedFace(t[p], r, f);
    ChangedFace(t[p], r, r.faceId);
    ChangedLowest(t[p], r);
    assert InsertIntoEntry(t[p], r).routes == t[p].routes[i := r];
    CountReplaced(t[p].routes, i, r);
    NearestUnaffected(t, Recounted(t, p, r), p, p, f);
  }

  lemma FlipAtName(t: Table, p: Name, r: Route, f: nat)
    requires RecordsMatch(t) && FitsFlip(t, p, r)
    ensures FlipRightAt(t, p, r, p, f) <==> !FlipGoesWrong(t, p, r, p, f)
  {
    FlipAtP(t, p, r, f);
    assert t[p].HasRecord(f) <==> Inherits(t, p, f);
  }

  lemma FlipOnAtOther(t: Table, p: Name, r: Route, d: Name, f: nat)
    requires RecordsMatch(t) && FitsFlip(t, p, r) && d != p && r.IsCapture()
    ensures FlipRightAt(t, p, r, d, f) <==> !OnGoesWrong(t, p, r, d, f)
  {
    FlipAtP(t, p, r, f);
    WantedBelow(t, Recounted(t, p, r), p, d, f);
    if Dependent(t, p, d, f) {
      NearestThrough(t, p, d, f);
      assert t[d].HasRecord(f) <==> Inherits(t, d, f);
    }
  }

  lemma FlipOffAtOther(t: Table, p: Name, r: Route, d: Name, f: nat)
    requires RecordsMatch(t) && FitsFlip(t, p, r) && d != p && !r.IsCapture()
    ensures FlipRightAt(t, p, r, d, f) <==> !OffGoesWrong(t, p, r, d, f)
  {
    FlipAtP(t, p, r, f);
    WantedBelow(t, Recounted(t, p, r), p, d, f);
    if Dependent(t, p, d, f) {
      NearestThrough(t, p, d, f);
      assert t[d].HasRecord(f) <==> Inherits(t, d, f);
    }
  }

  lemma FlipAt(t: Table, p: Name, r: Route, d: Name, f: nat)
    requires RecordsMatch(t) && FitsFlip(t, p, r)
    ensures FlipRightAt(t, p, r, d, f) <==> !FlipGoesWrong(t, p, r, d, f)
  {
    if d == p {
      FlipAtName(t, p, r, f);
    } else if r.IsCapture() {
      FlipOnAtOther(t, p, r, d, f);
    } else {
      FlipOffAtOther(t, p, r, d, f);
    }
  }

  /** The lists hold what the computation leaves at every name and face. */
  ghost predicate FlipComputed(t: Table, p: Name, r: Route, w: Lists)
    requires FitsFlip(t, p, r)
  {
    ListsOk(w) && forall d: Name, f: nat :: CellAt(w, d, f) == FlipCell(t, p, r, d, f)
  }

  /** The computation for a registration is defined, and it leaves these cells. */
  lemma FlipDefined(t: Table, p: Name, r: Route, prev: Option<Route>)
    requires FitsFlip(t, p, r) && FoundInherit(t, p, r, prev)
    ensures RegistrationDefined(t, p, r, prev)
    ensures forall d: Name, f: nat :: RegisteredCell(t, p, r, prev, d, f, NOTHING) == FlipCell(t, p, r, d, f)
  {
    ChangedFace(t[p], r, r.faceId);
    ChangedLowest(t[p], r);
  }

  /**
   * The only route of a face is registered again with its capture flag changed: the FIB agrees with the definition for
   * the flags that the routes now have, if and only if no name goes wrong.
   */
  lemma RegisterFlip(fib: Fib, t: Table, p: Name, r: Route, w: Lists, sent: seq<FibUpdate>)
    requires FitsFlip(t, p, r) && Agrees(fib, t) && RecordsMatch(t) && FlipComputed(t, p, r, w) && AllSent(w, sent)
    ensures Agrees(ApplyAll(fib, sent), Recounted(t, p, r)) <==> !exists d: Name, f: nat :: FlipGoesWrong(t, p, r, d, f)
  {
    forall d: Name, f: nat
      ensures At(ApplyAll(fib, sent), d, f) == Wanted(Recounted(t, p, r), d, f) <==> !FlipGoesWrong(t, p, r, d, f)
    {
      AnyOrderAt(w, sent, fib, d, f);
      assert CellAt(w, d, f) == FlipCell(t, p, r, d, f) && At(fib, d, f) == Wanted(t, d, f);
      FlipAt(t, p, r, d, f);
    }
  }
}
