/** The incremental FIB updates against the definition: own routes and the nearest unblocked ancestor routes. */
module FibAgreement {
  import opened Wrappers
  import opened Names
  import opened Routes
  import opened RibModel
  import opened FibUpdates
  import opened FibWalk

  /** What the name p hands down to the names below it on face f. */
  function Passes(t: Table, p: Name, f: nat): Option<Route> {
    if p in t && t[p].HasChildInherit(f) then FindInherit(t[p].routes, f)
    else if p in t && t[p].HasCapture() then None
    else Nearest(t, p, f)
  }

  function Cost(r: Option<Route>): Option<nat> {
    if r.Some? then Some(r.value.cost) else None
  }

  /** t and u agree at every name but p. */
  ghost predicate DifferAt(t: Table, u: Table, p: Name) {
    forall n :: n != p ==> (n in t <==> n in u) && (n in t ==> t[n] == u[n])
  }

  /** A name below p that is open to p inherits what p hands down. */
  lemma NearestThrough(t: Table, p: Name, d: Name, f: nat)
    requires p < d && Open(t, d, |p| + 1, |d|, f)
    ensures Nearest(t, d, f) == Passes(t, p, f)
  {
    ScanSplit(t, d, 0, |p| + 1, |d|, f);
    OpenMeansThrough(t, d, |p| + 1, |d|, f);
    assert d[..|p|] == p;
    forall j | 0 <= j < |p|
      ensures d[..j] == p[..j]
    {
    }
    ScanFrame(t, d, t, p, 0, |p|, f);
  }

  /** Names that p does not lie above, or that are closed to p, do not see a change at p. */
  lemma NearestUnaffected(t: Table, u: Table, p: Name, d: Name, f: nat)
    requires DifferAt(t, u, p)
    ensures p < d ==> (Open(t, d, |p| + 1, |d|, f) <==> Open(u, d, |p| + 1, |d|, f))
    ensures !(p < d) || !Open(t, d, |p| + 1, |d|, f) ==> Nearest(t, d, f) == Nearest(u, d, f)
  {
    if p < d {
      forall j | |p| < j < |d|
        ensures d[..j] != p
      {
      }
      ScanFrame(t, d, u, d, |p| + 1, |d|, f);
      ScanSplit(t, d, 0, |p| + 1, |d|, f);
      ScanSplit(u, d, 0, |p| + 1, |d|, f);
      OpenMeansThrough(t, d, |p| + 1, |d|, f);
      OpenMeansThrough(u, d, |p| + 1, |d|, f);
    } else {
      forall j | 0 <= j < |d|
        ensures d[..j] != p
      {
      }
      ScanFrame(t, d, u, d, 0, |d|, f);
    }
  }

  /** A name below p whose FIB entry on face f is what p hands down. */
  predicate Dependent(t: Table, p: Name, d: Name, f: nat) {
    p < d && Reached(t, d, |p| + 1, f) && !t[d].HasFace(f)
  }

  /** For a change at p only: dependent names get what p now hands down, the others below or beside p keep theirs. */
  lemma WantedBelow(t: Table, u: Table, p: Name, d: Name, f: nat)
    requires DifferAt(t, u, p) && d != p
    ensures Wanted(u, d, f) == if Dependent(t, p, d, f) then Cost(Passes(u, p, f)) else Wanted(t, d, f)
    ensures Dependent(t, p, d, f) ==> Wanted(t, d, f) == Cost(Passes(t, p, f))
  {
    NearestUnaffected(t, u, p, d, f);
    if p < d && Open(t, d, |p| + 1, |d|, f) {
      NearestThrough(t, p, d, f);
      NearestThrough(u, p, d, f);
    }
    if d in t {
      InheritImpliesFace(t[d].routes, f);
    }
  }

  lemma {:induction false} InheritImpliesFace(routes: seq<Route>, f: nat)
    ensures FindInherit(routes, f).Some? ==> FindFace(routes, f).Some?
  {
    if |routes| > 0 {
      InheritImpliesFace(routes[1..], f);
    }
  }

  /** The update a dependent name is sent leaves what p hands down after the change. */
  predicate StepRight(t: Table, u: Table, p: Name, f: nat, add: Option<Route>, remove: Option<Route>) {
    Cost(Passes(u, p, f)) ==
    if add.Some? then Cost(add)
    else if remove.Some? && Passes(t, p, f).Some? then None
    else Cost(Passes(t, p, f))
  }

  /** The walk below p is right at (d, f) exactly when the update for a dependent name is. */
  lemma BelowRight(t: Table, u: Table, p: Name, d: Name, f: nat, add: Option<Route>, remove: Option<Route>)
    requires DifferAt(t, u, p) && d != p && RecordsMatch(t)
    ensures Wanted(u, d, f) == Outcome(BelowCell(t, p, add, remove, d, f, Cell(None, [])).pending, Wanted(t, d, f)) <==>
            (Dependent(t, p, d, f) ==> StepRight(t, u, p, f, add, remove))
  {
    WantedBelow(t, u, p, d, f);
    if p < d && d in t {
      assert t[d].HasRecord(f) <==> Inherits(t, d, f);
      if Open(t, d, |p| + 1, |d|, f) {
        NearestThrough(t, p, d, f);
      }
    }
  }

  const NOTHING: Cell := Cell(None, [])

  /** The changes of one route that the theorems are about; i is the position of a route in the entry of name. */
  datatype Change =
    | AddName(name: Name, route: Route)
    | AddFace(name: Name, route: Route)
    | ChangeRoute(name: Name, route: Route)
    | DropRoute(name: Name, i: nat)

  predicate Fits(ch: Change, t: Table) {
    match ch
    case AddName(p, r) => p !in t
    case AddFace(p, r) => p in t && !t[p].HasFace(r.faceId) && CounterExact(t[p])
    case ChangeRoute(p, r) =>
      p in t && Position(t[p].routes, r) < |t[p].routes| && OneRoutePerFace(t[p].routes) && CounterExact(t[p]) &&
      t[p].routes[Position(t[p].routes, r)].IsCapture() == r.IsCapture()
    case DropRoute(p, i) => p in t && i < |t[p].routes| && OneRoutePerFace(t[p].routes) && CounterExact(t[p])
  }

  function TableAfter(ch: Change, t: Table): Table {
    match ch
    case AddName(p, r) => Inserted(t, p, r)
    case AddFace(p, r) => Inserted(t, p, r)
    case ChangeRoute(p, r) => Inserted(t, p, r)
    case DropRoute(p, i) => if p in t && i < |t[p].routes| then Erased(t, p, t[p].routes[i]) else t
  }

  /** What the computation for the change, started from empty lists, leaves at a name and face. */
  function ChangeCell(ch: Change, t: Table, d: Name, f: nat): Cell
    requires Fits(ch, t)
  {
    match ch
    case AddName(p, r) => NewEntryCell(t, p, r, d, f, NOTHING)
    case AddFace(p, r) => NewRouteCell(t, t[p], p, r, !t[p].HasCapture() && r.IsCapture(), d, f, NOTHING)
    case ChangeRoute(p, r) =>
      var e := InsertIntoEntry(t[p], r);
      UpdatedRouteCell(t, e, p, r, t[p].routes[Position(t[p].routes, r)], FindInherit(e.routes, r.faceId), d, f,
                       NOTHING)
    case DropRoute(p, i) => UnregisteredCell(t, p, i, None, d, f, NOTHING)
  }

  /** The change that a registration asks for. */
  function Registration(t: Table, p: Name, r: Route): Change {
    if p !in t then AddName(p, r)
    else if Position(t[p].routes, r) == |t[p].routes| then AddFace(p, r)
    else ChangeRoute(p, r)
  }

  /** What a registration computes at d and f, whatever the entry holds on the face. */
  function RegisteredCell(t: Table, p: Name, r: Route, prev: Option<Route>, d: Name, f: nat, c: Cell): Cell {
    if p !in t then NewEntryCell(t, p, r, d, f, c)
    else
      var i := Position(t[p].routes, r);
      if i == |t[p].routes| then NewRouteCell(t, t[p], p, r, !t[p].HasCapture() && r.IsCapture(), d, f, c)
      else UpdatedRouteCell(t, InsertIntoEntry(t[p], r), p, r, t[p].routes[i], prev, d, f, c)
  }

  /** For a route that the entry has already, prev is a cheapest child-inherit route on its face after the change. */
  ghost predicate FoundInherit(t: Table, p: Name, r: Route, prev: Option<Route>) {
    p in t && Position(t[p].routes, r) < |t[p].routes| ==>
      CheapestInherit(InsertIntoEntry(t[p], r).routes, r.faceId, prev)
  }

  /** The computation for a registration dereferences no null. */
  ghost predicate RegistrationDefined(t: Table, p: Name, r: Route, prev: Option<Route>) {
    p in t && Position(t[p].routes, r) < |t[p].routes| ==>
      var e := InsertIntoEntry(t[p], r);
      e.HasFace(r.faceId) && UpdateDefined(e, r, t[p].routes[Position(t[p].routes, r)], prev)
  }

  ghost predicate Computed(ch: Change, t: Table, w: Lists)
    requires Fits(ch, t)
  {
    ListsOk(w) && forall d: Name, f: nat :: CellAt(w, d, f) == ChangeCell(ch, t, d, f)
  }

  /** The same, but for a face whose updates were thrown away. */
  ghost predicate ComputedExcept(ch: Change, t: Table, w: Lists, face: nat)
    requires Fits(ch, t)
  {
    ListsOk(w) && (forall d: Name :: Pending(w, d, face) == None) &&
    forall d: Name, f: nat :: f != face ==> CellAt(w, d, f) == ChangeCell(ch, t, d, f)
  }

  lemma BatchDropped(ch: Change, t: Table, w: Lists)
    requires Fits(ch, t) && Computed(ch, t, w)
    ensures ComputedExcept(ch, t, w.(batch := []), w.batchFaceId)
  {
    var w' := w.(batch := []);
    forall d: Name, f: nat | f != w.batchFaceId
      ensures CellAt(w', d, f) == ChangeCell(ch, t, d, f)
    {
      assert CellAt(w, d, f) == ChangeCell(ch, t, d, f);
    }
  }

  /** All updates of the lists were sent, in some order. */
  predicate AllSent(w: Lists, sent: seq<FibUpdate>) {
    multiset(sent) == multiset(w.batch + w.nonBatch)
  }

  /** The update computed for d and f leaves there what the table after the change wants. */
  predicate RightAt(ch: Change, t: Table, d: Name, f: nat)
    requires Fits(ch, t)
  {
    Wanted(TableAfter(ch, t), d, f) == Outcome(ChangeCell(ch, t, d, f).pending, Wanted(t, d, f))
  }

  /** Pointwise agreement is agreement, whatever the order of the updates. */
  lemma AgreesAfter(ch: Change, fib: Fib, t: Table, w: Lists, sent: seq<FibUpdate>)
    requires Fits(ch, t) && Agrees(fib, t) && Computed(ch, t, w) && AllSent(w, sent)
    ensures Agrees(ApplyAll(fib, sent), TableAfter(ch, t)) <==> forall d: Name, f: nat :: RightAt(ch, t, d, f)
  {
    forall d: Name, f: nat
      ensures At(ApplyAll(fib, sent), d, f) == Outcome(ChangeCell(ch, t, d, f).pending, Wanted(t, d, f))
    {
      AnyOrderAt(w, sent, fib, d, f);
      assert CellAt(w, d, f) == ChangeCell(ch, t, d, f) && At(fib, d, f) == Wanted(t, d, f);
    }
    if forall d: Name, f: nat :: RightAt(ch, t, d, f) {
      forall d: Name, f: nat
        ensures At(ApplyAll(fib, sent), d, f) == Wanted(TableAfter(ch, t), d, f)
      {
        assert RightAt(ch, t, d, f);
      }
    }
  }

  predicate CounterExact(e: Entry) {
    e.nCaptures == CaptureCount(e.routes) && |e.routes| + 1 < UINT64
  }

  // ----- registering a route under a new name -----

  lemma NewNameAt(t: Table, p: Name, r: Route, d: Name, f: nat)
    requires p !in t && RecordsMatch(t)
    ensures RightAt(AddName(p, r), t, d, f)
  {
    var u := Inserted(t, p, r);
    assert u[p].routes == [] + [r] && u[p].HasCapture() == r.IsCapture();
    FindAppend([], r, f);
    NearestUnaffected(t, u, p, p, f);
    if d != p {
      BelowRight(t, u, p, d, f, AddedBelow(r, Nearest(t, p, f), f), if r.IsCapture() then Nearest(t, p, f) else None);
    }
  }

  /** For every flag combination the FIB agrees with the definition for the table with the new name. */
  lemma RegisterNewName(fib: Fib, t: Table, p: Name, r: Route, w: Lists, sent: seq<FibUpdate>)
    requires p !in t && Agrees(fib, t) && RecordsMatch(t)
    requires Computed(AddName(p, r), t, w) && AllSent(w, sent)
    ensures Agrees(ApplyAll(fib, sent), Inserted(t, p, r))
  {
    forall d: Name, f: nat {
      NewNameAt(t, p, r, d, f);
    }
    AgreesAfter(AddName(p, r), fib, t, w, sent);
  }

  // ----- registering a route on a face that is new to an existing name -----

  /** p hands down its own route on f, an ancestor offers one on f too, and d depends on p for it. */
  predicate OwnRouteAmongAncestors(t: Table, p: Name, d: Name, f: nat)
    requires p in t
  {
    t[p].HasChildInherit(f) && Nearest(t, p, f).Some? && Dependent(t, p, d, f)
  }

  lemma {:induction false} NoRouteNoCost(routes: seq<Route>, f: nat, inherit: bool)
    requires FindFace(routes, f).None?
    ensures LowestCost(routes, f, inherit).None?
  {
    if |routes| > 0 {
      NoRouteNoCost(routes[1..], f, inherit);
    }
  }

  lemma NewFaceAt(t: Table, p: Name, r: Route, d: Name, f: nat)
    requires RecordsMatch(t) && Fits(AddFace(p, r), t)
    ensures RightAt(AddFace(p, r), t, d, f) <==>
            !(!t[p].HasCapture() && r.IsCapture() && OwnRouteAmongAncestors(t, p, d, f))
  {
    var e, u := t[p], Inserted(t, p, r);
    FindFaceMeaning(e.routes, r.faceId);
    FindAppend(e.routes, r, f);
    InheritImpliesFace(e.routes, r.faceId);
    NoRouteNoCost(e.routes, r.faceId, true);
    NoRouteNoCost(e.routes, r.faceId, false);
    CaptureCountMeaning(e.routes);
    NearestUnaffected(t, u, p, p, f);
    var on := !e.HasCapture() && r.IsCapture();
    var add := if r.IsChildInherit() && f == r.faceId then Some(r) else None;
    var remove := if on then Nearest(t, p, f) else None;
    if d == p {
      assert e.HasRecord(f) <==> Inherits(t, p, f);
    } else {
      BelowRight(t, u, p, d, f, add, remove);
    }
  }

  /**
   * The FIB agrees afterwards unless the route turns capture on at a name that hands down another route of its own
   * on a face an ancestor also offers: then dependent names lose the name's own route.
   */
  lemma RegisterNewFace(fib: Fib, t: Table, p: Name, r: Route, w: Lists, sent: seq<FibUpdate>)
    requires Fits(AddFace(p, r), t) && Agrees(fib, t) && RecordsMatch(t)
    requires Computed(AddFace(p, r), t, w) && AllSent(w, sent)
    ensures Agrees(ApplyAll(fib, sent), Inserted(t, p, r)) <==>
            !(!t[p].HasCapture() && r.IsCapture() && exists d: Name, f: nat :: OwnRouteAmongAncestors(t, p, d, f))
  {
    forall d: Name, f: nat
      ensures RightAt(AddFace(p, r), t, d, f) <==>
              !(!t[p].HasCapture() && r.IsCapture() && OwnRouteAmongAncestors(t, p, d, f))
    {
      NewFaceAt(t, p, r, d, f);
    }
    AgreesAfter(AddFace(p, r), fib, t, w, sent);
  }

  // ----- registering a route again -----

  /** The only route of a face, changed in place: the other faces keep their routes. */
  lemma ChangedFace(e: Entry, r: Route, f: nat)
    requires Position(e.routes, r) < |e.routes| && OneRoutePerFace(e.routes)
    ensures var e', was := InsertIntoEntry(e, r), e.routes[Position(e.routes, r)];
            if f == r.faceId then
              FindFace(e.routes, f) == Some(was) && FindFace(e'.routes, f) == Some(r) &&
              FindInherit(e.routes, f) == (if was.IsChildInherit() then Some(was) else None) &&
              FindInherit(e'.routes, f) == (if r.IsChildInherit() then Some(r) else None)
            else
              FindFace(e'.routes, f) == FindFace(e.routes, f) && FindInherit(e'.routes, f) == FindInherit(e.routes, f)
  {
    var i, e' := Position(e.routes, r), InsertIntoEntry(e, r);
    assert e'.routes[i] == r;
    ReplacedAt(e.routes, i, r, f);
  }

  lemma {:induction false} ReplacedAt(routes: seq<Route>, i: nat, r: Route, f: nat)
    requires i < |routes| && routes[i].faceId == r.faceId && OneRoutePerFace(routes)
    ensures var was, after := routes[i], routes[i := r];
            if f == r.faceId then
              FindFace(routes, f) == Some(was) && FindFace(after, f) == Some(r) &&
              FindInherit(routes, f) == (if was.IsChildInherit() then Some(was) else None) &&
              FindInherit(after, f) == (if r.IsChildInherit() then Some(r) else None)
            else FindFace(after, f) == FindFace(routes, f) && FindInherit(after, f) == FindInherit(routes, f)
  {
    if i == 0 {
      assert routes[0 := r][1..] == routes[1..];
      if f == r.faceId {
        assert forall j :: 0 <= j < |routes[1..]| ==> routes[1..][j] == routes[j + 1];
        FindFaceMeaning(routes[1..], f);
        InheritImpliesFace(routes[1..], f);
      }
    } else {
      assert routes[i := r][1..] == routes[1..][i - 1 := r];
      ReplacedAt(routes[1..], i - 1, r, f);
    }
  }

  lemma LowestOfSingle(routes: seq<Route>, r: Route)
    requires FindFace(routes, r.faceId) == Some(r) && forall s :: s in routes && s.faceId == r.faceId ==> s == r
    ensures LowestCost(routes, r.faceId, false) == Some(r.cost)
  {
    FindFaceMeaning(routes, r.faceId);
    LowestCostOf(routes, r.faceId, false, Some(r));
  }

  /** For the only route of its face the computation is defined and finds the route itself, if it is child-inherit. */
  lemma ChangedLowest(e: Entry, r: Route)
    requires Position(e.routes, r) < |e.routes| && OneRoutePerFace(e.routes)
    ensures LowestCost(InsertIntoEntry(e, r).routes, r.faceId, false) == Some(r.cost)
    ensures forall prev :: CheapestInherit(InsertIntoEntry(e, r).routes, r.faceId, prev) ==>
                             prev == FindInherit(InsertIntoEntry(e, r).routes, r.faceId)
  {
    var e' := InsertIntoEntry(e, r);
    ChangedFace(e, r, r.faceId);
    forall s | s in e'.routes && s.faceId == r.faceId
      ensures s == r
    {
      var j :| 0 <= j < |e'.routes| && e'.routes[j] == s;
    }
    LowestOfSingle(e'.routes, r);
  }

  lemma RegistrationFits(t: Table, p: Name, r: Route, prev: Option<Route>)
    requires Fits(Registration(t, p, r), t)
    requires FoundInherit(t, p, r, prev)
    ensures RegistrationDefined(t, p, r, prev)
    ensures forall d: Name, f: nat ::
            RegisteredCell(t, p, r, prev, d, f, NOTHING) == ChangeCell(Registration(t, p, r), t, d, f)
  {
    if p in t && Position(t[p].routes, r) < |t[p].routes| {
      ChangedFace(t[p], r, r.faceId);
      ChangedLowest(t[p], r);
    }
  }

  /** Which names end up wrong after the route on r's face and origin gets the flags and cost of r. */
  predicate ChangeGoesWrong(t: Table, p: Name, r: Route, d: Name, f: nat)
    requires p in t && Position(t[p].routes, r) < |t[p].routes|
  {
    var was := t[p].routes[Position(t[p].routes, r)];
    f == r.faceId && was.IsChildInherit() && Dependent(t, p, d, f) &&
    if r.IsChildInherit() then r.cost != was.cost && r.flags != was.flags
    else t[p].HasCapture() && Nearest(t, p, f).Some?
  }

  lemma ChangeAtName(t: Table, p: Name, r: Route, f: nat)
    requires RecordsMatch(t) && Fits(ChangeRoute(p, r), t)
    ensures RightAt(ChangeRoute(p, r), t, p, f) && !ChangeGoesWrong(t, p, r, p, f)
  {
    ChangedFace(t[p], r, f);
    ChangedFace(t[p], r, r.faceId);
    ChangedLowest(t[p], r);
    NearestUnaffected(t, Inserted(t, p, r), p, p, f);
  }

  lemma ChangeAtOther(t: Table, p: Name, r: Route, d: Name, f: nat)
    requires RecordsMatch(t) && Fits(ChangeRoute(p, r), t) && d != p
    ensures RightAt(ChangeRoute(p, r), t, d, f) <==> !ChangeGoesWrong(t, p, r, d, f)
  {
    var u := Inserted(t, p, r);
    var was := t[p].routes[Position(t[p].routes, r)];
    ChangedFace(t[p], r, f);
    ChangedFace(t[p], r, r.faceId);
    ChangedLowest(t[p], r);
    NearestUnaffected(t, u, p, p, f);
    var prev := FindInherit(u[p].routes, r.faceId);
    BelowRight(t, u, p, d, f, UpdatedAdd(r, was, prev, Nearest(t, p, f), f), UpdatedRemove(r, was, f));
  }

  lemma ChangeAt(t: Table, p: Name, r: Route, d: Name, f: nat)
    requires RecordsMatch(t) && Fits(ChangeRoute(p, r), t)
    ensures RightAt(ChangeRoute(p, r), t, d, f) <==> !ChangeGoesWrong(t, p, r, d, f)
  {
    if d == p {
      ChangeAtName(t, p, r, f);
    } else {
      ChangeAtOther(t, p, r, d, f);
    }
  }

  /**
   * Changing the only route of its face, capture aside: the FIB agrees afterwards unless a route that stays
   * child-inherit changes cost and other flags at once, or one that stops being child-inherit uncovers an ancestor's
   * route at a name that captures.
   */
  lemma RegisterAgain(fib: Fib, t: Table, p: Name, r: Route, w: Lists, sent: seq<FibUpdate>)
    requires Fits(ChangeRoute(p, r), t) && Agrees(fib, t) && RecordsMatch(t)
    requires Computed(ChangeRoute(p, r), t, w) && AllSent(w, sent)
    ensures Agrees(ApplyAll(fib, sent), Inserted(t, p, r)) <==>
            !exists d: Name, f: nat :: ChangeGoesWrong(t, p, r, d, f)
  {
    forall d: Name, f: nat
      ensures RightAt(ChangeRoute(p, r), t, d, f) <==> !ChangeGoesWrong(t, p, r, d, f)
    {
      ChangeAt(t, p, r, d, f);
    }
    AgreesAfter(ChangeRoute(p, r), fib, t, w, sent);
  }

  // ----- unregistering the only route of its face -----

  /** An ancestor of p offers a route on f, and d depends on p for that face. */
  predicate AncestorRouteBelow(t: Table, p: Name, d: Name, f: nat) {
    Nearest(t, p, f).Some? && Dependent(t, p, d, f)
  }

  /** p still hands down an own route on f, at another cost than the ancestors' route that d is given instead. */
  predicate OwnRouteReplaced(t: Table, e: Entry, p: Name, d: Name, f: nat) {
    FindInherit(e.routes, f).Some? && Nearest(t, p, f).Some? &&
    FindInherit(e.routes, f).value.cost != Nearest(t, p, f).value.cost && Dependent(t, p, d, f)
  }

  /** The computation gives the ancestors' routes back to the names below p. */
  predicate GivesBack(e: Entry, r: Route) {
    !e.HasCapture() && (r.IsCapture() || r.IsChildInherit())
  }

  /** Erasing the only route of a face: the other faces keep their routes. */
  lemma DroppedFace(e: Entry, i: nat, f: nat)
    requires i < |e.routes| && OneRoutePerFace(e.routes)
    ensures var e', r := EraseFromEntry(e, i), e.routes[i];
            if f == r.faceId then
              FindFace(e.routes, f) == Some(r) && FindFace(e'.routes, f) == None && FindInherit(e'.routes, f) == None &&
              FindInherit(e.routes, f) == (if r.IsChildInherit() then Some(r) else None)
            else
              FindFace(e'.routes, f) == FindFace(e.routes, f) && FindInherit(e'.routes, f) == FindInherit(e.routes, f)
  {
    var e', r := EraseFromEntry(e, i), e.routes[i];
    if f != r.faceId {
      FindRemoved(e.routes, i, f);
    } else {
      FindFaceMeaning(e.routes, f);
      FindInheritMeaning(e.routes, f);
      FindFaceMeaning(e'.routes, f);
      InheritImpliesFace(e'.routes, f);
    }
  }

  lemma DroppedCapture(e: Entry, i: nat)
    requires i < |e.routes| && CounterExact(e)
    ensures var e', r := EraseFromEntry(e, i), e.routes[i];
            CounterExact(e') && (if r.IsCapture() then e.HasCapture() else e'.HasCapture() == e.HasCapture()) &&
            (e'.HasCapture() ==> e.HasCapture() && |e'.routes| > 0)
  {
    var e', r := EraseFromEntry(e, i), e.routes[i];
    assert e.routes == e.routes[..i] + ([r] + e.routes[i + 1..]);
    CaptureCountSplit(e.routes[..i], [r] + e.routes[i + 1..]);
    CaptureCountSplit([r], e.routes[i + 1..]);
    CaptureCountSplit(e.routes[..i], e.routes[i + 1..]);
    assert CaptureCount([r]) == if r.IsCapture() then 1 else 0;
    CaptureCountMeaning(e'.routes);
  }

  /** Which names end up with a wrong FIB entry after the route at position i of p is erased. */
  predicate DropGoesWrong(t: Table, p: Name, i: nat, d: Name, f: nat)
    requires p in t && i < |t[p].routes|
  {
    var e, r := EraseFromEntry(t[p], i), t[p].routes[i];
    if |e.routes| == 0 then r.IsCapture() && AncestorRouteBelow(t, p, d, f)
    else GivesBack(e, r) && OwnRouteReplaced(t, e, p, d, f)
  }

  lemma DropAtName(t: Table, p: Name, i: nat, f: nat)
    requires RecordsMatch(t) && Fits(DropRoute(p, i), t)
    ensures RightAt(DropRoute(p, i), t, p, f) && !DropGoesWrong(t, p, i, p, f)
  {
    var u := TableAfter(DropRoute(p, i), t);
    PositionOfOnly(t[p].routes, i);
    DroppedFace(t[p], i, f);
    DroppedCapture(t[p], i);
    NearestUnaffected(t, u, p, p, f);
    assert t[p].HasRecord(f) <==> Inherits(t, p, f);
  }

  /** What the children are given and lose for an erased route that was the only one of its face. */
  function DropAdd(t: Table, p: Name, i: nat, f: nat): Option<Route>
    requires p in t && i < |t[p].routes|
  {
    var e, r := EraseFromEntry(t[p], i), t[p].routes[i];
    var reopened := r.IsCapture() && t[p].HasCapture() && !e.HasCapture() && |e.routes| != 0;
    if reopened || (!r.IsCapture() && r.IsChildInherit() && !e.HasCapture()) then Nearest(t, p, f) else None
  }

  function DropRemove(t: Table, p: Name, i: nat, f: nat): Option<Route>
    requires p in t && i < |t[p].routes|
  {
    var r := t[p].routes[i];
    if r.IsChildInherit() && f == r.faceId then Some(r) else None
  }

  lemma DropCellBelow(t: Table, p: Name, i: nat, d: Name, f: nat)
    requires Fits(DropRoute(p, i), t) && d != p
    ensures ChangeCell(DropRoute(p, i), t, d, f) ==
            BelowCell(t, p, DropAdd(t, p, i, f), DropRemove(t, p, i, f), d, f, NOTHING)
  {
  }

  lemma DropStep(t: Table, p: Name, i: nat, f: nat)
    requires Fits(DropRoute(p, i), t)
    ensures var e, r, anc := EraseFromEntry(t[p], i), t[p].routes[i], Nearest(t, p, f);
            var u := TableAfter(DropRoute(p, i), t);
            DifferAt(t, u, p) &&
            (StepRight(t, u, p, f, DropAdd(t, p, i, f), DropRemove(t, p, i, f)) <==>
               !(anc.Some? &&
                 if |e.routes| == 0 then r.IsCapture()
                 else GivesBack(e, r) && e.HasChildInherit(f) && FindInherit(e.routes, f).value.cost != anc.value.cost))
  {
    PositionOfOnly(t[p].routes, i);
    DroppedFace(t[p], i, f);
    DroppedCapture(t[p], i);
    NearestUnaffected(t, TableAfter(DropRoute(p, i), t), p, p, f);
  }

  lemma DropAtOther(t: Table, p: Name, i: nat, d: Name, f: nat)
    requires RecordsMatch(t) && Fits(DropRoute(p, i), t) && d != p
    ensures RightAt(DropRoute(p, i), t, d, f) <==> !DropGoesWrong(t, p, i, d, f)
  {
    DropStep(t, p, i, f);
    DropCellBelow(t, p, i, d, f);
    BelowRight(t, TableAfter(DropRoute(p, i), t), p, d, f, DropAdd(t, p, i, f), DropRemove(t, p, i, f));
  }

  lemma DropAt(t: Table, p: Name, i: nat, d: Name, f: nat)
    requires RecordsMatch(t) && Fits(DropRoute(p, i), t)
    ensures RightAt(DropRoute(p, i), t, d, f) <==> !DropGoesWrong(t, p, i, d, f)
  {
    if d == p {
      DropAtName(t, p, i, f);
    } else {
      DropAtOther(t, p, i, d, f);
    }
  }

  lemma PositionOfOnly(routes: seq<Route>, i: nat)
    requires i < |routes| && OneRoutePerFace(routes)
    ensures Position(routes, routes[i]) == i
  {
    var j := Position(routes, routes[i]);
    assert j <= i;
  }

  /**
   * The FIB agrees afterwards exactly when no name goes wrong: for the last route of a name, exactly when the route
   * had no capture or no dependent name would inherit an ancestor route through the gap; for one of several routes,
   * unless handing back the ancestors' routes overwrites routes the name still hands down.
   */
  lemma UnregisterRoute(fib: Fib, t: Table, p: Name, i: nat, w: Lists, sent: seq<FibUpdate>)
    requires Fits(DropRoute(p, i), t) && Agrees(fib, t) && RecordsMatch(t)
    requires Computed(DropRoute(p, i), t, w) && AllSent(w, sent)
    ensures Agrees(ApplyAll(fib, sent), Erased(t, p, t[p].routes[i])) <==>
              !exists d: Name, f: nat :: DropGoesWrong(t, p, i, d, f)
  {
    forall d: Name, f: nat
      ensures RightAt(DropRoute(p, i), t, d, f) <==> !DropGoesWrong(t, p, i, d, f)
    {
      DropAt(t, p, i, d, f);
    }
    AgreesAfter(DropRoute(p, i), fib, t, w, sent);
  }

  /** Unregistering the only route of a name that has no capture flag is always right. */
  lemma UnregisterOnlyRoute(fib: Fib, t: Table, p: Name, w: Lists, sent: seq<FibUpdate>)
    requires Fits(DropRoute(p, 0), t) && Agrees(fib, t) && RecordsMatch(t)
    requires |t[p].routes| == 1 && !t[p].routes[0].IsCapture()
    requires Computed(DropRoute(p, 0), t, w) && AllSent(w, sent)
    ensures Agrees(ApplyAll(fib, sent), t - {p})
  {
    UnregisterRoute(fib, t, p, 0, w, sent);
    PositionOfOnly(t[p].routes, 0);
  }

  // ----- a destroyed face -----

  /** The FIB agrees on all faces but one. */
  ghost predicate AgreesElsewhere(fib: Fib, t: Table, face: nat) {
    forall n: Name, f: nat :: f != face ==> At(fib, n, f) == Wanted(t, n, f)
  }

  lemma AgreesAfterElsewhere(ch: Change, fib: Fib, t: Table, w: Lists, sent: seq<FibUpdate>, face: nat)
    requires Fits(ch, t) && AgreesElsewhere(fib, t, face) && ComputedExcept(ch, t, w, face) && AllSent(w, sent)
    ensures AgreesElsewhere(ApplyAll(fib, sent), TableAfter(ch, t), face) <==>
              forall d: Name, f: nat :: f != face ==> RightAt(ch, t, d, f)
    ensures forall d: Name :: At(ApplyAll(fib, sent), d, face) == At(fib, d, face)
  {
    forall d: Name, f: nat
      ensures f != face ==> At(ApplyAll(fib, sent), d, f) == Outcome(ChangeCell(ch, t, d, f).pending, Wanted(t, d, f))
      ensures f == face ==> At(ApplyAll(fib, sent), d, f) == At(fib, d, f)
    {
      AnyOrderAt(w, sent, fib, d, f);
      assert f != face ==> CellAt(w, d, f) == ChangeCell(ch, t, d, f) && At(fib, d, f) == Wanted(t, d, f);
    }
    if forall d: Name, f: nat :: f != face ==> RightAt(ch, t, d, f) {
      forall d: Name, f: nat | f != face
        ensures At(ApplyAll(fib, sent), d, f) == Wanted(TableAfter(ch, t), d, f)
      {
        assert RightAt(ch, t, d, f);
      }
    }
  }

  /**
   * A route of a destroyed face is erased and the updates for that face are not sent: its next hops stay to the
   * forwarder, and on the other faces the FIB agrees afterwards if and only if no name goes wrong there.
   */
  lemma RemoveDestroyedFace(fib: Fib, t: Table, p: Name, i: nat, w: Lists, sent: seq<FibUpdate>)
    requires Fits(DropRoute(p, i), t) && RecordsMatch(t) && AgreesElsewhere(fib, t, t[p].routes[i].faceId)
    requires ComputedExcept(DropRoute(p, i), t, w, t[p].routes[i].faceId) && AllSent(w, sent)
    ensures var face := t[p].routes[i].faceId;
            (AgreesElsewhere(ApplyAll(fib, sent), Erased(t, p, t[p].routes[i]), face) <==>
               !exists d: Name, f: nat :: f != face && DropGoesWrong(t, p, i, d, f)) &&
            forall d: Name :: At(ApplyAll(fib, sent), d, face) == At(fib, d, face)
  {
    forall d: Name, f: nat
      ensures RightAt(DropRoute(p, i), t, d, f) <==> !DropGoesWrong(t, p, i, d, f)
    {
      DropAt(t, p, i, d, f);
    }
    AgreesAfterElsewhere(DropRoute(p, i), fib, t, w, sent, t[p].routes[i].faceId);
  }
}
