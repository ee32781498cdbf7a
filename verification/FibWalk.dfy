/** What each step of fib-updater.cpp does to the pending update and the records of one name and face. */
module FibWalk {
  import opened Wrappers
  import opened Names
  import opened Routes
  import opened RibModel
  import opened FibUpdates

  // ----- what the walk does to one name and face -----

  /** d inherits on face f whatever comes from above length lo: nothing from there down to d blocks it or answers it. */
  predicate Reached(t: Table, d: Name, lo: nat, f: nat) {
    d in t && !t[d].HasCapture() && !t[d].HasChildInherit(f) && Open(t, d, lo, |d|, f)
  }

  function Get(s: RouteSet, f: nat): Option<Route> {
    if f in s then Some(s[f]) else None
  }

  /** A name takes an inherited route: a record and an update. */
  function Inheriting(d: Name, f: nat, r: Route, c: Cell): Cell {
    Cell(Some(AddUpdate(d, f, r.cost)), c.records + [RibUpdate(Register, d, r)])
  }

  /** A name loses an inherited route. */
  function Disinheriting(d: Name, f: nat, r: Route, c: Cell): Cell {
    Cell(Some(RemoveUpdate(d, f)), c.records + [RibUpdate(Unregister, d, r)])
  }

  /** A visited entry drops an inherited route it has a record of, then takes an added route unless it has its own. */
  function StepAt(e: Entry, d: Name, f: nat, add: Option<Route>, remove: Option<Route>, c: Cell): Cell {
    var c1 := if remove.Some? && e.HasRecord(f) then Disinheriting(d, f, remove.value, c) else c;
    if add.Some? && !e.HasFace(f) then Inheriting(d, f, add.value, c1) else c1
  }

  function StepCell(e: Entry, d: Name, f: nat, add: RouteSet, remove: RouteSet, c: Cell): Cell {
    StepAt(e, d, f, Get(add, f), Get(remove, f), c)
  }

  /** The effect of traverseSubTree from the entry at p. */
  ghost predicate SubtreeDone(before: Lists, after: Lists, t: Table, p: Name, add: RouteSet, remove: RouteSet) {
    ListsOk(after) && after.batchFaceId == before.batchFaceId &&
    forall d: Name, f: nat {:trigger CellAt(after, d, f)} ::
      CellAt(after, d, f) == if p <= d && Reached(t, d, |p|, f) then
                               StepCell(t[d], d, f, add, remove, CellAt(before, d, f))
                             else CellAt(before, d, f)
  }

  /** The effect of modifyChildrensInheritedRoutes on everything strictly below p. */
  ghost predicate BelowDone(before: Lists, after: Lists, t: Table, p: Name, add: RouteSet, remove: RouteSet) {
    ListsOk(after) && after.batchFaceId == before.batchFaceId &&
    forall d: Name, f: nat {:trigger CellAt(after, d, f)} ::
      CellAt(after, d, f) == if p < d && Reached(t, d, |p| + 1, f) then
                               StepCell(t[d], d, f, add, remove, CellAt(before, d, f))
                             else CellAt(before, d, f)
  }

  predicate Covered(done: set<Name>, d: Name) {
    exists c :: c in done && c <= d
  }

  /** The same, after some of the children. */
  ghost predicate ChildrenDone(before: Lists, after: Lists, t: Table, p: Name, done: set<Name>, add: RouteSet,
                               remove: RouteSet) {
    ListsOk(after) && after.batchFaceId == before.batchFaceId &&
    forall d: Name, f: nat {:trigger CellAt(after, d, f)} ::
      CellAt(after, d, f) == if Covered(done, d) && Reached(t, d, |p| + 1, f) then
                               StepCell(t[d], d, f, add, remove, CellAt(before, d, f))
                             else CellAt(before, d, f)
  }

  lemma ReachedFromChild(t: Table, p: Name, c: Name, d: Name, f: nat)
    requires IsChild(t.Keys, p, c) && c <= d
    ensures Reached(t, d, |c|, f) <==> Reached(t, d, |p| + 1, f)
  {
    forall j | |p| < j < |c|
      ensures d[..j] !in t
    {
      assert d[..j] == c[..j];
    }
  }

  lemma ChildUnique(keys: set<Name>, p: Name, b: Name, c: Name, d: Name)
    requires IsChild(keys, p, b) && IsChild(keys, p, c) && b <= d && c <= d
    ensures b == c
  {
    assert |b| <= |c| ==> c[..|b|] == b;
    assert |c| <= |b| ==> b[..|c|] == c;
  }

  lemma {:induction false} ChildAbove(keys: set<Name>, p: Name, d: Name, k: nat) returns (c: Name)
    requires p < d && d in keys && |p| < k <= |d| && forall j :: |p| < j < k ==> d[..j] !in keys
    ensures IsChild(keys, p, c) && c <= d
    decreases |d| - k
  {
    c := d[..k];
    assert d[..|d|] == d;
    if d[..k] in keys {
      forall j | |p| < j < |c|
        ensures c[..j] !in keys
      {
        assert c[..j] == d[..j];
      }
    } else {
      c := ChildAbove(keys, p, d, k + 1);
    }
  }

  lemma ChildStep(before: Lists, now: Lists, next: Lists, t: Table, p: Name, done: set<Name>, c: Name, add: RouteSet,
                  remove: RouteSet)
    requires ChildrenDone(before, now, t, p, done, add, remove) && SubtreeDone(now, next, t, c, add, remove)
    requires IsChild(t.Keys, p, c) && c !in done && forall b :: b in done ==> IsChild(t.Keys, p, b)
    ensures ChildrenDone(before, next, t, p, done + {c}, add, remove)
  {
    forall d: Name, f: nat
      ensures CellAt(next, d, f) ==
              if Covered(done + {c}, d) && Reached(t, d, |p| + 1, f) then
                StepCell(t[d], d, f, add, remove, CellAt(before, d, f))
              else CellAt(before, d, f)
    {
      if c <= d {
        ReachedFromChild(t, p, c, d, f);
        if b :| b in done && b <= d {
          ChildUnique(t.Keys, p, b, c, d);
        }
        assert c in done + {c};
      } else {
        assert Covered(done + {c}, d) <==> Covered(done, d) by {
          if b :| b in done && b <= d {
            assert b in done + {c};
          }
        }
      }
    }
  }

  lemma AllChildrenDone(before: Lists, after: Lists, t: Table, p: Name, done: set<Name>, add: RouteSet,
                        remove: RouteSet)
    requires ChildrenDone(before, after, t, p, done, add, remove)
    requires forall c :: c in done <==> IsChild(t.Keys, p, c)
    ensures BelowDone(before, after, t, p, add, remove)
  {
    forall d: Name, f: nat
      ensures CellAt(after, d, f) ==
              if p < d && Reached(t, d, |p| + 1, f) then StepCell(t[d], d, f, add, remove, CellAt(before, d, f))
              else CellAt(before, d, f)
    {
      if p < d && d in t {
        var c := ChildAbove(t.Keys, p, d, |p| + 1);
      }
    }
  }

  /** The two loops at the entry itself, before the children. */
  ghost predicate EntryDone(before: Lists, after: Lists, e: Entry, p: Name, add: RouteSet, remove: RouteSet) {
    ListsOk(after) && after.batchFaceId == before.batchFaceId &&
    forall d: Name, f: nat {:trigger CellAt(after, d, f)} ::
      CellAt(after, d, f) == if d == p && !e.HasChildInherit(f) then
                               StepCell(e, d, f, add, remove, CellAt(before, d, f))
                             else CellAt(before, d, f)
  }

  lemma EntryRemoveStep(before: Lists, now: Lists, next: Lists, e: Entry, p: Name, remove: RouteSet, rest: set<nat>,
                        f: nat)
    requires f in remove && f !in rest && EntryDone(before, now, e, p, map[], remove - rest - {f})
    requires if !e.HasChildInherit(f) && e.HasRecord(f) then
               ChangedAt(now, next, p, f, Disinheriting(p, f, remove[f], CellAt(now, p, f)))
             else next == now
    ensures EntryDone(before, next, e, p, map[], remove - rest)
  {
    forall d: Name, g: nat
      ensures CellAt(next, d, g) ==
              if d == p && !e.HasChildInherit(g) then StepCell(e, d, g, map[], remove - rest, CellAt(before, d, g))
              else CellAt(before, d, g)
    {
      assert CellAt(now, d, g) == if d == p && !e.HasChildInherit(g) then
                                    StepCell(e, d, g, map[], remove - rest - {f}, CellAt(before, d, g))
                                  else CellAt(before, d, g);
    }
  }

  lemma EntryAddStep(before: Lists, now: Lists, next: Lists, e: Entry, p: Name, add: RouteSet, remove: RouteSet,
                     rest: set<nat>, f: nat)
    requires f in add && f !in rest && EntryDone(before, now, e, p, add - rest - {f}, remove)
    requires if !e.HasChildInherit(f) && !e.HasFace(f) then
               ChangedAt(now, next, p, f, Inheriting(p, f, add[f], CellAt(now, p, f)))
             else next == now
    ensures EntryDone(before, next, e, p, add - rest, remove)
  {
    forall d: Name, g: nat
      ensures CellAt(next, d, g) ==
              if d == p && !e.HasChildInherit(g) then StepCell(e, d, g, add - rest, remove, CellAt(before, d, g))
              else CellAt(before, d, g)
    {
      assert CellAt(now, d, g) == if d == p && !e.HasChildInherit(g) then
                                    StepCell(e, d, g, add - rest - {f}, remove, CellAt(before, d, g))
                                  else CellAt(before, d, g);
    }
  }

  function WithoutOverridden(s: RouteSet, e: Entry): RouteSet {
    map f | f in s && !e.HasChildInherit(f) :: s[f]
  }

  /** The walk at one name and face: at the entry p itself, and below p for the routes that p does not override. */
  lemma SubtreePoint(t: Table, p: Name, d: Name, f: nat, add: RouteSet, remove: RouteSet, c0: Cell, c1: Cell, c2: Cell)
    requires p in t && !t[p].HasCapture() && p <= d
    requires c1 == if d == p && !t[p].HasChildInherit(f) then StepCell(t[p], d, f, add, remove, c0) else c0
    requires c2 == if p < d && Reached(t, d, |p| + 1, f) then
                     StepCell(t[d], d, f, WithoutOverridden(add, t[p]), WithoutOverridden(remove, t[p]), c1)
                   else c1
    ensures c2 == if Reached(t, d, |p|, f) then StepCell(t[d], d, f, add, remove, c0) else c0
  {
    if p < d {
      assert d[..|p|] == p;
      assert Reached(t, d, |p|, f) <==> Reached(t, d, |p| + 1, f) && !t[p].HasChildInherit(f);
    } else {
      assert d == p && Open(t, d, |p|, |d|, f);
    }
  }

  lemma SubtreeFromParts(before: Lists, mid: Lists, after: Lists, t: Table, p: Name, add: RouteSet, remove: RouteSet)
    requires p in t && !t[p].HasCapture()
    requires EntryDone(before, mid, t[p], p, add, remove)
    requires BelowDone(mid, after, t, p, WithoutOverridden(add, t[p]), WithoutOverridden(remove, t[p]))
    ensures SubtreeDone(before, after, t, p, add, remove)
  {
    forall d: Name, f: nat
      ensures CellAt(after, d, f) ==
              if p <= d && Reached(t, d, |p|, f) then StepCell(t[d], d, f, add, remove, CellAt(before, d, f))
              else CellAt(before, d, f)
    {
      var c0, c1, c2 := CellAt(before, d, f), CellAt(mid, d, f), CellAt(after, d, f);
      if p <= d {
        SubtreePoint(t, p, d, f, add, remove, c0, c1, c2);
      }
    }
  }

  lemma CapturedSubtree(w: Lists, t: Table, p: Name, add: RouteSet, remove: RouteSet)
    requires p in t && t[p].HasCapture() && ListsOk(w)
    ensures SubtreeDone(w, w, t, p, add, remove)
  {
    forall d: Name, f: nat
      ensures p <= d ==> !Reached(t, d, |p|, f)
    {
      if p <= d {
        assert d[..|p|] == p && d[..|d|] == d;
        assert Open(t, d, |p|, |d|, f) ==> |p| == |d|;
      }
    }
  }

  // ----- loops over a route set at one name -----

  function WithoutOwn(s: RouteSet, e: Entry): RouteSet {
    map f | f in s && !e.HasFace(f) :: s[f]
  }

  function WithRecord(s: RouteSet, e: Entry): RouteSet {
    map f | f in s && e.HasRecord(f) :: s[f]
  }

  ghost predicate InheritedAt(before: Lists, after: Lists, p: Name, add: RouteSet) {
    ListsOk(after) && after.batchFaceId == before.batchFaceId &&
    forall d: Name, f: nat {:trigger CellAt(after, d, f)} ::
      CellAt(after, d, f) == InheritCell(p, Get(add, f), d, f, CellAt(before, d, f))
  }

  ghost predicate DisinheritedAt(before: Lists, after: Lists, p: Name, remove: RouteSet) {
    ListsOk(after) && after.batchFaceId == before.batchFaceId &&
    forall d: Name, f: nat {:trigger CellAt(after, d, f)} ::
      CellAt(after, d, f) == DisinheritCell(p, Get(remove, f), d, f, CellAt(before, d, f))
  }

  lemma InheritStep(before: Lists, now: Lists, next: Lists, p: Name, add: RouteSet, add': RouteSet, f: nat)
    requires InheritedAt(before, now, p, add) && f !in add && f in add' && add' - {f} == add
    requires ChangedAt(now, next, p, f, Inheriting(p, f, add'[f], CellAt(now, p, f)))
    ensures InheritedAt(before, next, p, add')
  {
    forall d: Name, g: nat
      ensures CellAt(next, d, g) == InheritCell(p, Get(add', g), d, g, CellAt(before, d, g))
    {
      assert CellAt(now, d, g) == InheritCell(p, Get(add, g), d, g, CellAt(before, d, g));
      assert g != f ==> (g in add <==> g in add') && (g in add ==> add[g] == (add' - {f})[g]);
    }
  }

  lemma DisinheritStep(before: Lists, now: Lists, next: Lists, p: Name, remove: RouteSet, remove': RouteSet, f: nat)
    requires DisinheritedAt(before, now, p, remove) && f !in remove && f in remove' && remove' - {f} == remove
    requires ChangedAt(now, next, p, f, Disinheriting(p, f, remove'[f], CellAt(now, p, f)))
    ensures DisinheritedAt(before, next, p, remove')
  {
  }

  // ----- the effect of one route change on one name and face -----

  /** An update for the changed name itself. */
  function OwnCell(u: FibUpdate, d: Name, f: nat, c: Cell): Cell {
    if d == u.name && f == u.faceId then c.(pending := Some(u)) else c
  }

  function InheritCell(p: Name, add: Option<Route>, d: Name, f: nat, c: Cell): Cell {
    if d == p && add.Some? then Inheriting(d, f, add.value, c) else c
  }

  function DisinheritCell(p: Name, remove: Option<Route>, d: Name, f: nat, c: Cell): Cell {
    if d == p && remove.Some? then Disinheriting(d, f, remove.value, c) else c
  }

  function BelowCell(t: Table, p: Name, add: Option<Route>, remove: Option<Route>, d: Name, f: nat, c: Cell): Cell {
    if p < d && Reached(t, d, |p| + 1, f) then StepAt(t[d], d, f, add, remove, c) else c
  }

  /** What the children of a new name are given on face f, when the name's own ancestors offer anc there. */
  function AddedBelow(r: Route, anc: Option<Route>, f: nat): Option<Route> {
    if !r.IsChildInherit() then None
    else if f == r.faceId then Some(r)
    else if r.IsCapture() then None
    else anc
  }

  function NewEntryCell(t: Table, p: Name, r: Route, d: Name, f: nat, c: Cell): Cell {
    var anc := Nearest(t, p, f);
    var c1 := OwnCell(AddUpdate(p, r.faceId, r.cost), d, f, c);
    var c2 := InheritCell(p, if r.IsCapture() || f == r.faceId then None else anc, d, f, c1);
    BelowCell(t, p, AddedBelow(r, anc, f), if r.IsCapture() then anc else None, d, f, c2)
  }

  /** The lowest cost on a face, over all its routes or over the child-inherit ones. */
  function LowestCost(routes: seq<Route>, f: nat, inherit: bool): Option<nat> {
    if |routes| == 0 then None
    else
      var rest := LowestCost(routes[1..], f, inherit);
      if routes[0].faceId != f || (inherit && !routes[0].IsChildInherit()) then rest
      else if rest.None? || routes[0].cost < rest.value then Some(routes[0].cost)
      else rest
  }

  predicate Candidate(r: Route, f: nat, inherit: bool) {
    r.faceId == f && (inherit ==> r.IsChildInherit())
  }

  lemma {:induction false} LowestCostMeaning(routes: seq<Route>, f: nat, inherit: bool)
    ensures LowestCost(routes, f, inherit).None? <==> forall r :: r in routes ==> !Candidate(r, f, inherit)
    ensures LowestCost(routes, f, inherit).Some? ==>
              var c := LowestCost(routes, f, inherit).value;
              (exists r :: r in routes && Candidate(r, f, inherit) && r.cost == c) &&
              (forall r :: r in routes && Candidate(r, f, inherit) ==> c <= r.cost)
  {
    if |routes| > 0 {
      LowestCostMeaning(routes[1..], f, inherit);
      assert routes[0] in routes;
      forall r | r in routes
        ensures r == routes[0] || r in routes[1..]
      {
        var i :| 0 <= i < |routes| && routes[i] == r;
        assert i > 0 ==> routes[1..][i - 1] == r;
      }
      if LowestCost(routes[1..], f, inherit).Some? {
        var r :| r in routes[1..] && Candidate(r, f, inherit) && r.cost == LowestCost(routes[1..], f, inherit).value;
        assert r in routes;
      }
    }
  }

  /** A cheapest candidate has the lowest cost. */
  lemma LowestCostOf(routes: seq<Route>, f: nat, inherit: bool, c: Option<Route>)
    requires c.None? <==> forall r :: r in routes ==> !Candidate(r, f, inherit)
    requires c.Some? ==> c.value in routes && Candidate(c.value, f, inherit) &&
                         forall r :: r in routes && Candidate(r, f, inherit) ==> c.value.cost <= r.cost
    ensures LowestCost(routes, f, inherit) == if c.Some? then Some(c.value.cost) else None
  {
    LowestCostMeaning(routes, f, inherit);
  }

  predicate BeatsLowest(r: Route, lowest: Option<nat>) {
    lowest.None? || r.cost <= lowest.value
  }

  function NewRouteCell(t: Table, e: Entry, p: Name, r: Route, captureOn: bool, d: Name, f: nat, c: Cell): Cell {
    var add := if r.IsChildInherit() && f == r.faceId && BeatsLowest(r, LowestCost(e.routes, f, true)) then Some(r)
               else None;
    var remove := if captureOn then Nearest(t, p, f) else None;
    var c1 := DisinheritCell(p, if e.HasRecord(f) then remove else None, d, f, c);
    var c2 := BelowCell(t, p, add, remove, d, f, c1);
    if BeatsLowest(r, LowestCost(e.routes, r.faceId, false)) then OwnCell(AddUpdate(p, r.faceId, r.cost), d, f, c2)
    else c2
  }

  // createFibUpdatesForUpdatedRoute: e is the entry with the new flags and cost, prev its cheapest child-inherit route
  // on the face of r.

  /** The entry's own update when the cost changed. */
  function UpdatedCostCell(e: Entry, p: Name, r: Route, was: Route, prev: Option<Route>, d: Name, f: nat,
                           c: Cell): Cell {
    var lowest := LowestCost(e.routes, r.faceId, false);
    if r.cost == was.cost then c
    else if BeatsLowest(r, lowest) then OwnCell(AddUpdate(p, r.faceId, r.cost), d, f, c)
    else if was.cost < lowest.value && prev.Some? then
      OwnCell(AddUpdate(p, prev.value.faceId, prev.value.cost), d, f, c)
    else c
  }

  predicate NoCheaper(r: Route, prev: Option<Route>) {
    prev.None? || r.cost <= prev.value.cost
  }

  /** What the children are given and lose on face f for changes of cost and of child-inherit. */
  function UpdatedAdd(r: Route, was: Route, prev: Option<Route>, anc: Option<Route>, f: nat): Option<Route> {
    if f != r.faceId then None
    else if r.flags == was.flags then
      (if r.cost != was.cost && r.IsChildInherit() && NoCheaper(r, prev) then Some(r) else None)
    else if r.IsChildInherit() then (if !was.IsChildInherit() && NoCheaper(r, prev) then Some(r) else None)
    else if was.IsChildInherit() then (if prev.Some? then prev else anc)
    else None
  }

  function UpdatedRemove(r: Route, was: Route, f: nat): Option<Route> {
    if f == r.faceId && was.IsChildInherit() && !r.IsChildInherit() then Some(r) else None
  }

  function UpdatedRouteCell(t: Table, e: Entry, p: Name, r: Route, was: Route, prev: Option<Route>, d: Name, f: nat,
                            c: Cell): Cell {
    var anc := Nearest(t, p, f);
    var c1 := UpdatedCostCell(e, p, r, was, prev, d, f, c);
    var c2 := BelowCell(t, p, UpdatedAdd(r, was, prev, anc, f), UpdatedRemove(r, was, f), d, f, c1);
    if !was.IsCapture() && r.IsCapture() then
      BelowCell(t, p, None, anc, d, f, DisinheritCell(p, if e.HasRecord(f) then anc else None, d, f, c2))
    else if was.IsCapture() && !r.IsCapture() then
      BelowCell(t, p, anc, None, d, f, InheritCell(p, if e.HasFace(f) then None else anc, d, f, c2))
    else c2
  }

  /** e is the entry without the erased route r. */
  function ErasedRouteCell(t: Table, e: Entry, p: Name, r: Route, captureOff: bool, d: Name, f: nat, c: Cell): Cell {
    var anc := Nearest(t, p, f);
    var reopened := r.IsCapture() && captureOff && |e.routes| != 0;
    var add := if reopened || (!r.IsCapture() && r.IsChildInherit() && !e.HasCapture()) then anc else None;
    var remove := if r.IsChildInherit() && f == r.faceId then Some(r) else None;
    var c1 := OwnCell(RemoveUpdate(p, r.faceId), d, f, c);
    var c2 := InheritCell(p, if reopened && !e.HasFace(f) then anc else None, d, f, c1);
    var c3 := BelowCell(t, p, add, remove, d, f, c2);
    InheritCell(p, if !e.HasCapture() && |e.routes| != 0 && f == r.faceId then anc else None, d, f, c3)
  }

  function ErasedEntryCell(e: Entry, p: Name, d: Name, f: nat, c: Cell): Cell {
    if d == p && e.HasRecord(f) then OwnCell(RemoveUpdate(p, f), d, f, c) else c
  }

  /** The whole of an unregistration: the erased route, the next cheapest on its face, and the end of the entry. */
  function UnregisteredCell(t: Table, p: Name, i: nat, next: Option<Route>, d: Name, f: nat, c: Cell): Cell
    requires p in t && i < |t[p].routes|
  {
    var e := EraseFromEntry(t[p], i);
    var c1 := ErasedRouteCell(t, e, p, t[p].routes[i], t[p].HasCapture() && !e.HasCapture(), d, f, c);
    var c2 := if next.Some? then NewRouteCell(t, e, p, next.value, false, d, f, c1) else c1;
    if |t[p].routes| == 1 then ErasedEntryCell(t[p], p, d, f, c2) else c2
  }

  // ----- putting the steps of a computation together -----

  lemma UnregisteredComposed(w0: Lists, w1: Lists, w2: Lists, w3: Lists, t: Table, p: Name, i: nat, next: Option<Route>)
    requires p in t && i < |t[p].routes|
    requires var e := EraseFromEntry(t[p], i);
             forall d: Name, f: nat ::
               CellAt(w1, d, f) ==
               ErasedRouteCell(t, e, p, t[p].routes[i], t[p].HasCapture() && !e.HasCapture(), d, f, CellAt(w0, d, f))
    requires if next.None? then w2 == w1
             else forall d: Name, f: nat ::
               CellAt(w2, d, f) == NewRouteCell(t, EraseFromEntry(t[p], i), p, next.value, false, d, f,
                                                CellAt(w1, d, f))
    requires if |t[p].routes| != 1 then w3 == w2
             else forall d: Name, f: nat :: CellAt(w3, d, f) == ErasedEntryCell(t[p], p, d, f, CellAt(w2, d, f))
    ensures forall d: Name, f: nat :: CellAt(w3, d, f) == UnregisteredCell(t, p, i, next, d, f, CellAt(w0, d, f))
  {
  }

  ghost predicate IsAncestorSet(anc: RouteSet, t: Table, p: Name) {
    forall f: nat :: Nearest(t, p, f) == Get(anc, f)
  }

  lemma NoStep(w: Lists, t: Table, p: Name)
    requires ListsOk(w)
    ensures InheritedAt(w, w, p, map[]) && DisinheritedAt(w, w, p, map[]) && BelowDone(w, w, t, p, map[], map[])
  {
  }

  /** The route sets with which a new name's children are visited. */
  ghost predicate NewEntrySets(r: Route, anc: RouteSet, add: RouteSet, remove: RouteSet) {
    remove == (if r.IsCapture() then anc else map[]) &&
    add == (if !r.IsChildInherit() then map[]
            else if r.IsCapture() then map[r.faceId := r]
            else (anc - {r.faceId})[r.faceId := r])
  }

  lemma NewEntryPoint(t: Table, p: Name, r: Route, d: Name, f: nat, anc: RouteSet, add: RouteSet, remove: RouteSet,
                      c0: Cell, c1: Cell, c2: Cell, c3: Cell)
    requires Nearest(t, p, f) == Get(anc, f) && NewEntrySets(r, anc, add, remove)
    requires c1 == OwnCell(AddUpdate(p, r.faceId, r.cost), d, f, c0)
    requires c2 == InheritCell(p, Get(if r.IsCapture() then map[] else anc - {r.faceId}, f), d, f, c1)
    requires c3 == BelowCell(t, p, Get(add, f), Get(remove, f), d, f, c2)
    ensures c3 == NewEntryCell(t, p, r, d, f, c0)
  {
  }

  lemma NewEntryComposed(w0: Lists, w1: Lists, w2: Lists, w3: Lists, t: Table, p: Name, r: Route, anc: RouteSet,
                         add: RouteSet, remove: RouteSet)
    requires IsAncestorSet(anc, t, p) && ListsOk(w0) && w1 == Add(w0, AddUpdate(p, r.faceId, r.cost))
    requires InheritedAt(w1, w2, p, if r.IsCapture() then map[] else anc - {r.faceId})
    requires BelowDone(w2, w3, t, p, add, remove) && NewEntrySets(r, anc, add, remove)
    ensures ListsOk(w3) && w3.batchFaceId == w0.batchFaceId
    ensures forall d: Name, f: nat :: CellAt(w3, d, f) == NewEntryCell(t, p, r, d, f, CellAt(w0, d, f))
  {
    AddChanges(w0, AddUpdate(p, r.faceId, r.cost));
    forall d: Name, f: nat
      ensures CellAt(w3, d, f) == NewEntryCell(t, p, r, d, f, CellAt(w0, d, f))
    {
      NewEntryPoint(t, p, r, d, f, anc, add, remove, CellAt(w0, d, f), CellAt(w1, d, f), CellAt(w2, d, f),
                    CellAt(w3, d, f));
    }
  }

  /** The route sets with which the children of an existing name are visited for a new route. */
  ghost predicate NewRouteSets(e: Entry, r: Route, captureOn: bool, anc: RouteSet, add: RouteSet, remove: RouteSet) {
    remove == (if captureOn then anc else map[]) &&
    add == (if r.IsChildInherit() && BeatsLowest(r, LowestCost(e.routes, r.faceId, true)) then map[r.faceId := r]
            else map[])
  }

  lemma NewRouteComposed(w0: Lists, w1: Lists, w2: Lists, w3: Lists, t: Table, e: Entry, p: Name, r: Route,
                         captureOn: bool, anc: RouteSet, add: RouteSet, remove: RouteSet)
    requires (captureOn ==> IsAncestorSet(anc, t, p)) && NewRouteSets(e, r, captureOn, anc, add, remove)
    requires DisinheritedAt(w0, w1, p, WithRecord(remove, e)) && BelowDone(w1, w2, t, p, add, remove)
    requires w3 == if BeatsLowest(r, LowestCost(e.routes, r.faceId, false)) then Add(w2, AddUpdate(p, r.faceId, r.cost))
                   else w2
    ensures ListsOk(w3) && w3.batchFaceId == w0.batchFaceId
    ensures forall d: Name, f: nat :: CellAt(w3, d, f) == NewRouteCell(t, e, p, r, captureOn, d, f, CellAt(w0, d, f))
  {
    AddChanges(w2, AddUpdate(p, r.faceId, r.cost));
    forall d: Name, f: nat
      ensures CellAt(w3, d, f) == NewRouteCell(t, e, p, r, captureOn, d, f, CellAt(w0, d, f))
    {
      NewRoutePoint(t, e, p, r, captureOn, anc, add, remove, d, f, CellAt(w0, d, f), CellAt(w1, d, f), CellAt(w2, d, f),
                    CellAt(w3, d, f));
    }
  }

  lemma NewRoutePoint(t: Table, e: Entry, p: Name, r: Route, captureOn: bool, anc: RouteSet, add: RouteSet,
                      remove: RouteSet, d: Name, f: nat, c0: Cell, c1: Cell, c2: Cell, c3: Cell)
    requires (captureOn ==> Nearest(t, p, f) == Get(anc, f)) && NewRouteSets(e, r, captureOn, anc, add, remove)
    requires c1 == DisinheritCell(p, Get(WithRecord(remove, e), f), d, f, c0)
    requires c2 == BelowCell(t, p, Get(add, f), Get(remove, f), d, f, c1)
    requires c3 == if BeatsLowest(r, LowestCost(e.routes, r.faceId, false)) then
                     OwnCell(AddUpdate(p, r.faceId, r.cost), d, f, c2)
                   else c2
    ensures c3 == NewRouteCell(t, e, p, r, captureOn, d, f, c0)
  {
  }

  /** prev is a cheapest child-inherit route on the face; there is none exactly if it is None. */
  predicate CheapestInherit(routes: seq<Route>, f: nat, prev: Option<Route>) {
    (prev.None? <==> FindInherit(routes, f).None?) &&
    (prev.Some? ==> prev.value in routes && Candidate(prev.value, f, true) &&
                    forall r :: r in routes && Candidate(r, f, true) ==> prev.value.cost <= r.cost)
  }

  /** createFibUpdatesForUpdatedRoute dereferences null exactly if this fails. */
  predicate UpdateDefined(e: Entry, r: Route, was: Route, prev: Option<Route>)
    requires e.HasFace(r.faceId)
  {
    var lowest := LowestCost(e.routes, r.faceId, false);
    r.cost == was.cost || BeatsLowest(r, lowest) || lowest.value <= was.cost || prev.Some?
  }

  ghost predicate UpdatedSets(t: Table, p: Name, r: Route, was: Route, prev: Option<Route>, add: RouteSet,
                              remove: RouteSet) {
    forall f: nat {:trigger Get(add, f)} {:trigger Get(remove, f)} {:trigger Nearest(t, p, f)} ::
      Get(add, f) == UpdatedAdd(r, was, prev, Nearest(t, p, f), f) && Get(remove, f) == UpdatedRemove(r, was, f)
  }

  /** The last part: capture turned on takes the ancestor routes away, capture turned off gives them. */
  ghost predicate CaptureUpdated(w2: Lists, w3: Lists, w4: Lists, t: Table, e: Entry, p: Name, r: Route, was: Route,
                                 anc: RouteSet) {
    if !was.IsCapture() && r.IsCapture() then
      IsAncestorSet(anc, t, p) && DisinheritedAt(w2, w3, p, WithRecord(anc, e)) && BelowDone(w3, w4, t, p, map[], anc)
    else if was.IsCapture() && !r.IsCapture() then
      IsAncestorSet(anc, t, p) && InheritedAt(w2, w3, p, WithoutOwn(anc, e)) && BelowDone(w3, w4, t, p, anc, map[])
    else ListsOk(w2) && w3 == w2 && w4 == w2
  }

  lemma UpdatedRouteComposed(w0: Lists, w1: Lists, w2: Lists, w3: Lists, w4: Lists, t: Table, e: Entry, p: Name,
                             r: Route, was: Route, prev: Option<Route>, add: RouteSet, remove: RouteSet, anc: RouteSet)
    requires ListsOk(w1) && w1.batchFaceId == w0.batchFaceId
    requires forall d: Name, f: nat :: CellAt(w1, d, f) == UpdatedCostCell(e, p, r, was, prev, d, f, CellAt(w0, d, f))
    requires BelowDone(w1, w2, t, p, add, remove) && UpdatedSets(t, p, r, was, prev, add, remove)
    requires CaptureUpdated(w2, w3, w4, t, e, p, r, was, anc)
    ensures ListsOk(w4) && w4.batchFaceId == w0.batchFaceId
    ensures forall d: Name, f: nat ::
            CellAt(w4, d, f) == UpdatedRouteCell(t, e, p, r, was, prev, d, f, CellAt(w0, d, f))
  {
    forall d: Name, f: nat
      ensures CellAt(w4, d, f) == UpdatedRouteCell(t, e, p, r, was, prev, d, f, CellAt(w0, d, f))
    {
      assert Nearest(t, p, f) == Get(anc, f) || (was.IsCapture() <==> r.IsCapture());
      UpdatedRoutePoint(t, e, p, r, was, prev, add, remove, anc, d, f,
                        CellAt(w0, d, f), CellAt(w1, d, f), CellAt(w2, d, f), CellAt(w3, d, f), CellAt(w4, d, f));
    }
  }

  lemma UpdatedRoutePoint(t: Table, e: Entry, p: Name, r: Route, was: Route, prev: Option<Route>, add: RouteSet,
                          remove: RouteSet,
                          anc: RouteSet, d: Name, f: nat, c0: Cell, c1: Cell, c2: Cell, c3: Cell, c4: Cell)
    requires Get(add, f) == UpdatedAdd(r, was, prev, Nearest(t, p, f), f) && Get(remove, f) == UpdatedRemove(r, was, f)
    requires Nearest(t, p, f) == Get(anc, f) || (was.IsCapture() <==> r.IsCapture())
    requires c1 == UpdatedCostCell(e, p, r, was, prev, d, f, c0)
    requires c2 == BelowCell(t, p, Get(add, f), Get(remove, f), d, f, c1)
    requires if !was.IsCapture() && r.IsCapture() then
               c3 == DisinheritCell(p, Get(WithRecord(anc, e), f), d, f, c2) &&
                 c4 == BelowCell(t, p, None, Get(anc, f), d, f, c3)
             else if was.IsCapture() && !r.IsCapture() then
               c3 == InheritCell(p, Get(WithoutOwn(anc, e), f), d, f, c2) &&
                 c4 == BelowCell(t, p, Get(anc, f), None, d, f, c3)
             else c4 == c2
    ensures c4 == UpdatedRouteCell(t, e, p, r, was, prev, d, f, c0)
  {
  }

  /** The route sets with which the children are visited for an erased route, and what the name itself takes over. */
  ghost predicate ErasedRouteSets(e: Entry, r: Route, captureOff: bool, anc: RouteSet, self: RouteSet, add: RouteSet,
                                  remove: RouteSet) {
    var reopened := r.IsCapture() && captureOff && |e.routes| != 0;
    self == (if reopened then WithoutOwn(anc, e) else map[]) &&
    add == (if reopened || (!r.IsCapture() && r.IsChildInherit() && !e.HasCapture()) then anc else map[]) &&
    remove == (if r.IsChildInherit() then map[r.faceId := r] else map[])
  }

  lemma ErasedRouteComposed(w0: Lists, w1: Lists, w2: Lists, w3: Lists, w4: Lists, t: Table, e: Entry, p: Name,
                            r: Route, captureOff: bool, anc: RouteSet, self: RouteSet, add: RouteSet, remove: RouteSet)
    requires IsAncestorSet(anc, t, p) && ErasedRouteSets(e, r, captureOff, anc, self, add, remove)
    requires ListsOk(w0) && w1 == Add(w0, RemoveUpdate(p, r.faceId))
    requires InheritedAt(w1, w2, p, self) && BelowDone(w2, w3, t, p, add, remove)
    requires if !e.HasCapture() && |e.routes| != 0 && r.faceId in anc then
               ChangedAt(w3, w4, p, r.faceId, Inheriting(p, r.faceId, anc[r.faceId], CellAt(w3, p, r.faceId)))
             else w4 == w3
    ensures ListsOk(w4) && w4.batchFaceId == w0.batchFaceId
    ensures forall d: Name, f: nat ::
            CellAt(w4, d, f) == ErasedRouteCell(t, e, p, r, captureOff, d, f, CellAt(w0, d, f))
  {
    AddChanges(w0, RemoveUpdate(p, r.faceId));
    forall d: Name, f: nat
      ensures CellAt(w4, d, f) == ErasedRouteCell(t, e, p, r, captureOff, d, f, CellAt(w0, d, f))
    {
      ErasedRoutePoint(t, e, p, r, captureOff, anc, self, add, remove, d, f,
                       CellAt(w0, d, f), CellAt(w1, d, f), CellAt(w2, d, f), CellAt(w3, d, f), CellAt(w4, d, f));
    }
  }

  lemma ErasedRoutePoint(t: Table, e: Entry, p: Name, r: Route, captureOff: bool, anc: RouteSet, self: RouteSet,
                         add: RouteSet,
                         remove: RouteSet, d: Name, f: nat, c0: Cell, c1: Cell, c2: Cell, c3: Cell, c4: Cell)
    requires Nearest(t, p, f) == Get(anc, f) && ErasedRouteSets(e, r, captureOff, anc, self, add, remove)
    requires c1 == OwnCell(RemoveUpdate(p, r.faceId), d, f, c0)
    requires c2 == InheritCell(p, Get(self, f), d, f, c1)
    requires c3 == BelowCell(t, p, Get(add, f), Get(remove, f), d, f, c2)
    requires c4 == if !e.HasCapture() && |e.routes| != 0 && f == r.faceId then InheritCell(p, Get(anc, f), d, f, c3)
                   else c3
    ensures c4 == ErasedRouteCell(t, e, p, r, captureOff, d, f, c0)
  {
  }

  /** Removals for some of the inherited routes of p. */
  ghost predicate RecordsErased(before: Lists, after: Lists, p: Name, done: seq<Route>) {
    ListsOk(after) && after.batchFaceId == before.batchFaceId &&
    forall d: Name, f: nat {:trigger CellAt(after, d, f)} ::
      CellAt(after, d, f) == if d == p && FindFace(done, f).Some? then
                               OwnCell(RemoveUpdate(p, f), d, f, CellAt(before, d, f))
                             else CellAt(before, d, f)
  }

  lemma RecordErased(before: Lists, now: Lists, p: Name, done: seq<Route>, r: Route)
    requires RecordsErased(before, now, p, done)
    ensures RecordsErased(before, Add(now, RemoveUpdate(p, r.faceId)), p, done + [r])
  {
    var next := Add(now, RemoveUpdate(p, r.faceId));
    AddChanges(now, RemoveUpdate(p, r.faceId));
    forall d: Name, f: nat
      ensures CellAt(next, d, f) == if d == p && FindFace(done + [r], f).Some? then
                                      OwnCell(RemoveUpdate(p, f), d, f, CellAt(before, d, f))
                                    else CellAt(before, d, f)
    {
      FindAppend(done, r, f);
      assert CellAt(now, d, f) == if d == p && FindFace(done, f).Some? then
                                    OwnCell(RemoveUpdate(p, f), d, f, CellAt(before, d, f))
                                  else CellAt(before, d, f);
    }
  }
}
