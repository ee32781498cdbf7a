/** Erasing one of several routes that a name has on one face (fib-updater.cpp, computeUpdatesForUnregistration). */
module FibSeveral {
  import opened Wrappers
  import opened Names
  import opened Routes
  import opened RibModel
  import opened RibTable
  import opened FibUpdates
  import opened FibWalk
  import opened FibAgreement
  import opened FibLimits

  // ----- the cheapest routes of a face -----

  lemma {:induction false} OnFaceSplit(a: seq<Route>, b: seq<Route>, f: nat)
    ensures OnFace(a + b, f) == OnFace(a, f) + OnFace(b, f)
  {
    if |a| == 0 {
      assert a + b == b;
    } else {
      assert (a + b)[1..] == a[1..] + b;
      OnFaceSplit(a[1..], b, f);
    }
  }

  /** Two routes on a face stand at two positions of the face's list. */
  lemma OnFacePositions(routes: seq<Route>, m: nat, n: nat, f: nat) returns (a: nat, b: nat)
    requires m < n < |routes| && routes[m].faceId == f == routes[n].faceId
    ensures a < b < |OnFace(routes, f)| && OnFace(routes, f)[a] == routes[m] && OnFace(routes, f)[b] == routes[n]
  {
    var x, y, z := routes[..m], routes[m + 1..n], routes[n + 1..];
    a, b := |OnFace(x, f)|, |OnFace(x, f)| + 1 + |OnFace(y, f)|;
    assert routes == x + ([routes[m]] + (y + ([routes[n]] + z)));
    OnFaceSplit(x, [routes[m]] + (y + ([routes[n]] + z)), f);
    OnFaceSplit([routes[m]], y + ([routes[n]] + z), f);
    OnFaceSplit(y, [routes[n]] + z, f);
    OnFaceSplit([routes[n]], z, f);
    assert OnFace([routes[m]], f) == [routes[m]] && OnFace([routes[n]], f) == [routes[n]];
  }

  lemma {:induction false} OnFaceMembers(routes: seq<Route>, f: nat, r: Route)
    ensures r in OnFace(routes, f) <==> r in routes && r.faceId == f
  {
    if |routes| > 0 {
      OnFaceMembers(routes[1..], f, r);
      assert routes == [routes[0]] + routes[1..];
    }
  }

  /** The route that is second by cost is a cheapest one after the erasure, or a cheapest route was not erased. */
  lemma SecondAfterErase(routes: seq<Route>, i: nat, next: Route, m: nat)
    requires i < |routes| && m < |routes| && m != i && routes[m].faceId == next.faceId == routes[i].faceId
    requires SecondByCost(OnFace(routes, next.faceId), next)
    ensures next.cost <= routes[m].cost || routes[m].cost <= routes[i].cost
    ensures routes[m].cost < next.cost ==> routes[m].cost < routes[i].cost
  {
    var list := OnFace(routes, next.faceId);
    var a, b := OnFacePositions(routes, if m < i then m else i, if m < i then i else m, next.faceId);
    var j: nat, k: nat :| SecondAt(list, j, k) && list[k] == next;
  }

  lemma StaysOnFace(routes: seq<Route>, i: nat, f: nat)
    requires i < |routes| && routes[i].faceId == f && |OnFace(routes, f)| > 1
    ensures var rest := routes[..i] + routes[i + 1..]; FindFace(rest, f).Some? && LowestCost(rest, f, false).Some?
  {
    var rest := routes[..i] + routes[i + 1..];
    assert routes == routes[..i] + ([routes[i]] + routes[i + 1..]);
    OnFaceSplit(routes[..i], [routes[i]] + routes[i + 1..], f);
    OnFaceSplit([routes[i]], routes[i + 1..], f);
    OnFaceSplit(routes[..i], routes[i + 1..], f);
    OnFaceMembers(rest, f, OnFace(rest, f)[0]);
    FindFaceMeaning(rest, f);
    LowestCostMeaning(rest, f, false);
  }

  lemma OtherStays(routes: seq<Route>, i: nat, j: nat)
    requires i < |routes| && j < |routes| && i != j
    ensures routes[j] in routes[..i] + routes[i + 1..]
  {
    var rest := routes[..i] + routes[i + 1..];
    assert routes[j] == if j < i then rest[j] else rest[j - 1];
  }

  lemma BeatsAfterErase(routes: seq<Route>, i: nat, next: Route)
    requires i < |routes| && next.faceId == routes[i].faceId && SecondByCost(OnFace(routes, next.faceId), next)
    ensures var f, rest := next.faceId, routes[..i] + routes[i + 1..];
            var lowest := LowestCost(routes, f, false);
            lowest.Some? && FindFace(rest, f).Some? &&
            (BeatsLowest(next, LowestCost(rest, f, false)) <==>
             lowest.value == routes[i].cost || lowest.value == next.cost)
  {
    var f, rest := next.faceId, routes[..i] + routes[i + 1..];
    StaysOnFace(routes, i, f);
    LowestCostMeaning(routes, f, false);
    LowestCostMeaning(rest, f, false);
    OnFaceMembers(routes, f, next);
    var low :| low in rest && Candidate(low, f, false) && low.cost == LowestCost(rest, f, false).value;
    var l :| 0 <= l < |rest| && rest[l] == low;
    SecondAfterErase(routes, i, next, if l < i then l else l + 1);
    assert low in routes;
    assert Candidate(next, f, false) && Candidate(routes[i], f, false);
    var best :| best in routes && Candidate(best, f, false) && best.cost == LowestCost(routes, f, false).value;
    if best.cost != routes[i].cost {
      var m :| 0 <= m < |routes| && routes[m] == best;
      OtherStays(routes, i, m);
    }
  }

  /** Of the two cheapest routes on the face at least one stays. */
  lemma CheapStays(routes: seq<Route>, i: nat, next: Route)
    requires i < |routes| && next.faceId == routes[i].faceId && SecondByCost(OnFace(routes, next.faceId), next)
    ensures var left := LowestCost(routes[..i] + routes[i + 1..], next.faceId, false);
            left.Some? && left.value <= next.cost
  {
    var f, list := next.faceId, OnFace(routes, next.faceId);
    var x, z, rest := routes[..i], routes[i + 1..], routes[..i] + routes[i + 1..];
    assert routes == x + ([routes[i]] + z);
    OnFaceSplit(x, [routes[i]] + z, f);
    OnFaceSplit([routes[i]], z, f);
    OnFaceSplit(x, z, f);
    assert OnFace([routes[i]], f) == [routes[i]];
    var j: nat, k: nat :| SecondAt(list, j, k) && list[k] == next;
    var q := |OnFace(x, f)|;
    var m := if j == q then k else j;
    assert list[m] == OnFace(rest, f)[if m < q then m else m - 1];
    OnFaceMembers(rest, f, list[m]);
    LowestCostMeaning(rest, f, false);
    assert Candidate(list[m], f, false);
  }

  // ----- the name itself -----

  /**
   * The next hop gets the lowest cost that is left on the face exactly if the erased route was a cheapest one, two
   * routes tie for the lowest cost, or an ancestor's route of that very cost takes its place; otherwise an ancestor's
   * route of another cost does, or nothing, although own routes on the face remain.
   */
  lemma OneOfSeveral(t: Table, p: Name, i: nat, next: Route)
    requires p in t && i < |t[p].routes| && next.faceId == t[p].routes[i].faceId
    requires SecondByCost(OnFace(t[p].routes, next.faceId), next)
    ensures var f, routes, e := next.faceId, t[p].routes, EraseFromEntry(t[p], i);
            var lowest, left := LowestCost(routes, f, false), LowestCost(e.routes, f, false);
            var pending := UnregisteredCell(t, p, i, Some(next), p, f, NOTHING).pending;
            var offered := !e.HasCapture() && Nearest(t, p, f).Some?;
            lowest.Some? && left.Some? && e.HasFace(f) &&
            (pending == Some(AddUpdate(p, f, left.value)) <==>
               lowest.value in {routes[i].cost, next.cost} ||
               (offered && Nearest(t, p, f).value.cost == left.value)) &&
            (pending != Some(AddUpdate(p, f, left.value)) ==>
               pending ==
               Some(if offered then AddUpdate(p, f, Nearest(t, p, f).value.cost) else RemoveUpdate(p, f)))
  {
    BeatsAfterErase(t[p].routes, i, next);
    CheapStays(t[p].routes, i, next);
  }

  // ----- the names below -----

  /** The cost that an entry hands down: the lowest of its child-inherit routes, or else what it is offered itself. */
  function HandsDown(e: Entry, anc: Option<Route>, f: nat): Option<nat> {
    var lowest := LowestCost(e.routes, f, true);
    if lowest.Some? then lowest else if e.HasCapture() then None else Cost(anc)
  }

  /** With one route per face this is the definition that the FIB is compared with. */
  lemma HandsDownIsPasses(t: Table, p: Name, f: nat)
    requires p in t && OneRoutePerFace(t[p].routes)
    ensures HandsDown(t[p], Nearest(t, p, f), f) == Cost(Passes(t, p, f))
  {
    var routes := t[p].routes;
    FindInheritMeaning(routes, f);
    forall r | r in routes && Candidate(r, f, true)
      ensures FindInherit(routes, f) == Some(r)
    {
      var i :| 0 <= i < |routes| && routes[i] == r;
      var j :| 0 <= j < |routes| && Some(routes[j]) == FindInherit(routes, f);
    }
    LowestCostOf(routes, f, true, FindInherit(routes, f));
  }

  /** The route that is second by cost is handed down, although it may be the one that goes. */
  predicate KeptBelow(e: Entry, next: Route) {
    next.IsChildInherit() && BeatsLowest(next, LowestCost(e.routes, next.faceId, true))
  }

  /** What a dependent name is told. */
  lemma DependentCell(t: Table, p: Name, i: nat, next: Route, d: Name)
    requires RecordsMatch(t) && p in t && CounterExact(t[p]) && Dependent(t, p, d, next.faceId)
    requires i < |t[p].routes| && |t[p].routes| > 1 && next.faceId == t[p].routes[i].faceId
    ensures var e, r, f, anc := EraseFromEntry(t[p], i), t[p].routes[i], next.faceId, Nearest(t, p, next.faceId);
            UnregisteredCell(t, p, i, Some(next), d, f, NOTHING).pending ==
            if KeptBelow(e, next) then Some(AddUpdate(d, f, next.cost))
            else if GivesBack(e, r) && anc.Some? then Some(AddUpdate(d, f, anc.value.cost))
            else if r.IsChildInherit() then Some(RemoveUpdate(d, f))
            else None
  {
    var r, f := t[p].routes[i], next.faceId;
    DroppedCapture(t[p], i);
    NearestThrough(t, p, d, f);
    FindInheritMeaning(t[p].routes, f);
    assert t[d].HasRecord(f) <==> Inherits(t, d, f);
    assert r.IsChildInherit() ==> Passes(t, p, f).Some?;
  }

  lemma InheritLeft(routes: seq<Route>, i: nat, f: nat)
    requires i < |routes|
    ensures var rest := routes[..i] + routes[i + 1..];
            !Candidate(routes[i], f, true) ==> LowestCost(rest, f, true) == LowestCost(routes, f, true)
  {
    var rest := routes[..i] + routes[i + 1..];
    LowestCostMeaning(rest, f, true);
    LowestCostMeaning(routes, f, true);
    if !Candidate(routes[i], f, true) {
      forall r | Candidate(r, f, true)
        ensures r in rest <==> r in routes
      {
        if r in routes {
          var j :| 0 <= j < |routes| && routes[j] == r;
          OtherStays(routes, i, j);
        }
      }
    }
  }

  /** If no child-inherit route is left but the second by cost is one, it is the route that went. */
  lemma ErasedIsNext(routes: seq<Route>, i: nat, next: Route)
    requires i < |routes| && SecondByCost(OnFace(routes, next.faceId), next) && next.IsChildInherit()
    requires LowestCost(routes[..i] + routes[i + 1..], next.faceId, true).None?
    ensures routes[i] == next
  {
    var f, rest := next.faceId, routes[..i] + routes[i + 1..];
    OnFaceMembers(routes, f, next);
    LowestCostMeaning(rest, f, true);
    var j :| 0 <= j < |routes| && routes[j] == next;
    if j != i {
      OtherStays(routes, i, j);
    }
  }

  /**
   * A name below that held what p hands down holds it afterwards exactly as follows. If p has no child-inherit route on
   * the face left: unless the erased route was the second by cost and so is handed down again, at another cost than an
   * ancestor's route that takes its place. If one is left: if the lowest such cost is the one of the route that is
   * second by cost or of the ancestor's route given back, or if nothing was to be taken away.
   */
  lemma DependentOfSeveral(t: Table, p: Name, i: nat, next: Route, d: Name)
    requires RecordsMatch(t) && p in t && CounterExact(t[p]) && Dependent(t, p, d, next.faceId)
    requires i < |t[p].routes| && next.faceId == t[p].routes[i].faceId
    requires SecondByCost(OnFace(t[p].routes, next.faceId), next)
    ensures var e, r, f, anc := EraseFromEntry(t[p], i), t[p].routes[i], next.faceId, Nearest(t, p, next.faceId);
            var left, given := LowestCost(e.routes, f, true), GivesBack(e, r) && anc.Some?;
            Outcome(UnregisteredCell(t, p, i, Some(next), d, f, NOTHING).pending, HandsDown(t[p], anc, f)) ==
            HandsDown(e, anc, f) <==>
              if left.None? then next.IsChildInherit() ==> given && anc.value.cost == next.cost
              else if KeptBelow(e, next) then next.cost == left.value
              else if given then anc.value.cost == left.value
              else !r.IsChildInherit()
  {
    var e, r, f, anc := EraseFromEntry(t[p], i), t[p].routes[i], next.faceId, Nearest(t, p, next.faceId);
    BeatsAfterErase(t[p].routes, i, next);
    DependentCell(t, p, i, next, d);
    DroppedCapture(t[p], i);
    InheritLeft(t[p].routes, i, f);
    if LowestCost(e.routes, f, true).None? && next.IsChildInherit() {
      ErasedIsNext(t[p].routes, i, next);
    }
  }

  // ----- another route on the face, or another cost or flag -----

  function Lower(a: Option<nat>, b: Option<nat>): Option<nat> {
    if a.None? then b else if b.None? || a.value <= b.value then a else b
  }

  function CostIf(r: Route, f: nat, inherit: bool): Option<nat> {
    if Candidate(r, f, inherit) then Some(r.cost) else None
  }

  /** The lowest cost is that of one route or of the others. */
  lemma LowestSplit(routes: seq<Route>, i: nat, f: nat, inherit: bool)
    requires i < |routes|
    ensures LowestCost(routes, f, inherit) ==
            Lower(CostIf(routes[i], f, inherit), LowestCost(routes[..i] + routes[i + 1..], f, inherit))
  {
    var rest := routes[..i] + routes[i + 1..];
    LowestCostMeaning(routes, f, inherit);
    LowestCostMeaning(rest, f, inherit);
    forall r
      ensures r in routes <==> r in rest || r == routes[i]
    {
      if r in routes {
        var j :| 0 <= j < |routes| && routes[j] == r;
        if j != i {
          OtherStays(routes, i, j);
        }
      }
    }
  }

  /** The other routes stay when one is changed. */
  lemma LowestChanged(e: Entry, r: Route, f: nat, inherit: bool) returns (others: Option<nat>)
    requires Position(e.routes, r) < |e.routes|
    ensures var was := e.routes[Position(e.routes, r)];
            LowestCost(e.routes, f, inherit) == Lower(CostIf(was, f, inherit), others) &&
            LowestCost(InsertIntoEntry(e, r).routes, f, inherit) == Lower(CostIf(r, f, inherit), others)
  {
    var routes, i := e.routes, Position(e.routes, r);
    var after := InsertIntoEntry(e, r).routes;
    assert after[i] == r && after[..i] + after[i + 1..] == routes[..i] + routes[i + 1..];
    LowestSplit(routes, i, f, inherit);
    LowestSplit(after, i, f, inherit);
    others := LowestCost(routes[..i] + routes[i + 1..], f, inherit);
  }

  lemma LowestAppended(e: Entry, r: Route, f: nat, inherit: bool)
    requires Position(e.routes, r) == |e.routes|
    ensures LowestCost(InsertIntoEntry(e, r).routes, f, inherit) ==
            Lower(CostIf(r, f, inherit), LowestCost(e.routes, f, inherit))
  {
    var k := |e.routes|;
    assert (e.routes + [r])[..k] + (e.routes + [r])[k + 1..] == e.routes;
    LowestSplit(e.routes + [r], k, f, inherit);
  }

  lemma CheapestIsLowest(routes: seq<Route>, f: nat, prev: Option<Route>)
    requires CheapestInherit(routes, f, prev)
    ensures LowestCost(routes, f, true) == Cost(prev)
  {
    FindInheritMeaning(routes, f);
    forall r | r in routes && Candidate(r, f, true)
      ensures FindInherit(routes, f).Some?
    {
      var i :| 0 <= i < |routes| && routes[i] == r;
    }
    LowestCostOf(routes, f, true, prev);
  }

  /** The route that stands for r before it is registered again. */
  function Before(t: Table, p: Name, r: Route): Route
    requires p in t && Position(t[p].routes, r) < |t[p].routes|
  {
    t[p].routes[Position(t[p].routes, r)]
  }

  /** Where the name has a route of its own, it has no record. */
  lemma OwnFace(t: Table, p: Name, i: nat)
    requires p in t && i < |t[p].routes|
    ensures var f := t[p].routes[i].faceId; t[p].HasFace(f) && (RecordsMatch(t) ==> !t[p].HasRecord(f))
  {
    var f := t[p].routes[i].faceId;
    FindFaceMeaning(t[p].routes, f);
    assert RecordsMatch(t) ==> (t[p].HasRecord(f) <==> Inherits(t, p, f));
  }

  lemma FaceStays(e: Entry, r: Route)
    requires Position(e.routes, r) < |e.routes|
    ensures InsertIntoEntry(e, r).HasFace(r.faceId) && InsertIntoEntry(e, r).inherited == e.inherited
    ensures InsertIntoEntry(e, r).HasCapture() == e.HasCapture()
  {
    var i, after := Position(e.routes, r), InsertIntoEntry(e, r).routes;
    assert after[i].faceId == r.faceId;
    FindFaceMeaning(after, r.faceId);
  }

  /** Nothing but the cost decides the name's own update on the face. */
  lemma ChangeCellHere(t: Table, p: Name, r: Route, prev: Option<Route>)
    requires p in t && Position(t[p].routes, r) < |t[p].routes|
    requires RecordsMatch(t) || Before(t, p, r).IsCapture() == r.IsCapture()
    ensures RegisteredCell(t, p, r, prev, p, r.faceId, NOTHING).pending ==
            UpdatedCostCell(InsertIntoEntry(t[p], r), p, r, Before(t, p, r), prev, p, r.faceId, NOTHING).pending
  {
    OwnFace(t, p, Position(t[p].routes, r));
    FaceStays(t[p], r);
  }

  /** What the name is told, by the costs before and after. */
  lemma ChangeTold(t: Table, p: Name, r: Route, prev: Option<Route>)
    requires p in t && Position(t[p].routes, r) < |t[p].routes| && FoundInherit(t, p, r, prev)
    requires RegistrationDefined(t, p, r, prev)
    requires RecordsMatch(t) || Before(t, p, r).IsCapture() == r.IsCapture()
    ensures var f, was, e := r.faceId, Before(t, p, r), InsertIntoEntry(t[p], r);
            var lowest, inherit := LowestCost(e.routes, f, false), LowestCost(e.routes, f, true);
            lowest.Some? && lowest.value <= r.cost && (was.cost < lowest.value < r.cost ==> inherit.Some?) &&
            RegisteredCell(t, p, r, prev, p, f, NOTHING).pending ==
            if r.cost != was.cost && r.cost == lowest.value then Some(AddUpdate(p, f, r.cost))
            else if was.cost < lowest.value < r.cost then Some(AddUpdate(p, f, inherit.value))
            else None
  {
    var others := LowestChanged(t[p], r, r.faceId, false);
    CheapestIsLowest(InsertIntoEntry(t[p], r).routes, r.faceId, prev);
    CheapestFace(InsertIntoEntry(t[p], r).routes, r.faceId, prev);
    ChangeCellHere(t, p, r, prev);
  }

  lemma CheapestFace(routes: seq<Route>, f: nat, prev: Option<Route>)
    requires CheapestInherit(routes, f, prev)
    ensures prev.Some? ==> prev.value.faceId == f
  {
  }

  lemma ToldRight(told: Option<FibUpdate>, was: nat, now: nat, others: Option<nat>, inherit: Option<nat>, p: Name,
                  f: nat)
    requires var lowest := Lower(Some(now), others);
             (was < lowest.value < now ==> inherit.Some?) &&
             told == if now != was && now == lowest.value then Some(AddUpdate(p, f, now))
                     else if was < lowest.value < now then Some(AddUpdate(p, f, inherit.value))
                     else None
    ensures var lowest := Lower(Some(now), others);
            Outcome(told, Lower(Some(was), others)) == lowest <==> !(was < lowest.value < now && inherit != lowest)
  {
  }

  /**
   * A route is registered again, among any others on its face. The name is told a cost exactly if the cost changed and
   * the route is now a cheapest one, or was cheaper than what is cheapest now: in the first case its cost, in the
   * second the lowest child-inherit cost. So the next hop has the lowest cost again, except if and only if the route
   * rose above a cheaper one and no cheapest route is child-inherit.
   */
  lemma ChangeOfSeveral(t: Table, p: Name, r: Route, prev: Option<Route>)
    requires p in t && Position(t[p].routes, r) < |t[p].routes| && FoundInherit(t, p, r, prev)
    requires RegistrationDefined(t, p, r, prev)
    requires RecordsMatch(t) || Before(t, p, r).IsCapture() == r.IsCapture()
    ensures var f, was, e := r.faceId, Before(t, p, r), InsertIntoEntry(t[p], r);
            var before, lowest := LowestCost(t[p].routes, f, false), LowestCost(e.routes, f, false);
            var pending := RegisteredCell(t, p, r, prev, p, f, NOTHING).pending;
            before.Some? && lowest.Some? &&
            (Outcome(pending, before) == lowest <==>
               !(was.cost < lowest.value < r.cost && LowestCost(e.routes, f, true) != lowest)) &&
            (was.cost < lowest.value < r.cost ==> LowestCost(e.routes, f, true).Some?) &&
            pending == if r.cost != was.cost && r.cost == lowest.value then Some(AddUpdate(p, f, r.cost))
                       else if was.cost < lowest.value < r.cost then
                         Some(AddUpdate(p, f, LowestCost(e.routes, f, true).value))
                       else None
  {
    var others := LowestChanged(t[p], r, r.faceId, false);
    ChangeTold(t, p, r, prev);
    var pending := RegisteredCell(t, p, r, prev, p, r.faceId, NOTHING).pending;
    var inherit := LowestCost(InsertIntoEntry(t[p], r).routes, r.faceId, true);
    ToldRight(pending, Before(t, p, r).cost, r.cost, others, inherit, p, r.faceId);
  }

  /** What the change adds and takes away below, by the child-inherit costs before and after. */
  lemma ChangeSets(t: Table, p: Name, r: Route, prev: Option<Route>)
    requires p in t && Position(t[p].routes, r) < |t[p].routes| && FoundInherit(t, p, r, prev)
    ensures var f, was, anc := r.faceId, Before(t, p, r), Nearest(t, p, r.faceId);
            var left := LowestCost(InsertIntoEntry(t[p], r).routes, f, true);
            Cost(UpdatedAdd(r, was, prev, anc, f)) ==
            (if r.IsChildInherit() then
               if left == Some(r.cost) && (if was.IsChildInherit() then r.flags == was.flags && r.cost != was.cost
                                           else true) then left
               else None
             else if was.IsChildInherit() then if left.Some? then left else Cost(anc)
             else None) &&
            (UpdatedRemove(r, was, f).Some? <==> was.IsChildInherit() && !r.IsChildInherit())
  {
    var others := LowestChanged(t[p], r, r.faceId, true);
    CheapestIsLowest(InsertIntoEntry(t[p], r).routes, r.faceId, prev);
  }

  lemma DependentTold(t: Table, p: Name, d: Name, f: nat, add: Option<Route>, remove: Option<Route>, c: Cell)
    requires RecordsMatch(t) && Dependent(t, p, d, f) && c.pending == None
    ensures BelowCell(t, p, add, remove, d, f, c).pending ==
            if add.Some? then Some(AddUpdate(d, f, add.value.cost))
            else if remove.Some? && Passes(t, p, f).Some? then Some(RemoveUpdate(d, f))
            else None
  {
    NearestThrough(t, p, d, f);
    assert t[d].HasRecord(f) <==> Inherits(t, d, f);
  }

  /** A name with a child-inherit route on the face hands one down. */
  lemma HandsOwn(t: Table, p: Name, i: nat)
    requires p in t && i < |t[p].routes| && t[p].routes[i].IsChildInherit()
    ensures Passes(t, p, t[p].routes[i].faceId).Some?
  {
    FindInheritMeaning(t[p].routes, t[p].routes[i].faceId);
  }

  lemma ChangeCellBelow(t: Table, p: Name, r: Route, prev: Option<Route>, d: Name, f: nat)
    requires p in t && Position(t[p].routes, r) < |t[p].routes|
    requires Before(t, p, r).IsCapture() == r.IsCapture() && d != p
    ensures var was := Before(t, p, r);
            RegisteredCell(t, p, r, prev, d, f, NOTHING) ==
            BelowCell(t, p, UpdatedAdd(r, was, prev, Nearest(t, p, f), f), UpdatedRemove(r, was, f), d, f, NOTHING)
  {
  }

  /** What a dependent name is told when a route of p is registered again with the same capture flag. */
  lemma ChangeDependentCell(t: Table, p: Name, r: Route, prev: Option<Route>, d: Name)
    requires RecordsMatch(t) && p in t && Position(t[p].routes, r) < |t[p].routes| && FoundInherit(t, p, r, prev)
    requires Before(t, p, r).IsCapture() == r.IsCapture() && Dependent(t, p, d, r.faceId)
    ensures var f, was, anc := r.faceId, Before(t, p, r), Nearest(t, p, r.faceId);
            var add := UpdatedAdd(r, was, prev, anc, f);
            RegisteredCell(t, p, r, prev, d, f, NOTHING).pending ==
            if add.Some? then Some(AddUpdate(d, f, add.value.cost))
            else if was.IsChildInherit() && !r.IsChildInherit() then Some(RemoveUpdate(d, f))
            else None
  {
    var f, was := r.faceId, Before(t, p, r);
    var add, remove := UpdatedAdd(r, was, prev, Nearest(t, p, f), f), UpdatedRemove(r, was, f);
    ChangeCellBelow(t, p, r, prev, d, f);
    DependentTold(t, p, d, f, add, remove, NOTHING);
    if was.IsChildInherit() {
      HandsOwn(t, p, Position(t[p].routes, r));
    }
  }

  /** The same as a statement about costs: of the route before and now, of the others, and of the ancestors' route. */
  lemma ChangeRight(told: Option<nat>, was: nat, now: nat, had: bool, has: bool, sameFlags: bool, others: Option<nat>,
                    above: Option<nat>)
    requires var left := if has then Lower(Some(now), others) else others;
             told == if has then
                       if left == Some(now) && (if had then sameFlags && now != was else true) then left else None
                     else if had then if left.Some? then left else above
                     else None
    requires sameFlags ==> had == has
    ensures var before := if had then Lower(Some(was), others) else others;
            var left := if has then Lower(Some(now), others) else others;
            var outcome := if told.Some? then told else if had && !has then None
                           else if before.Some? then before else above;
            outcome == (if left.Some? then left else above) <==>
              !(had && has && before != left && !(sameFlags && left == Some(now)))
  {
  }

  /**
   * A name below that held what p hands down holds it after a route of p was registered again with the same capture
   * flag, except exactly if the route stays child-inherit while the lowest child-inherit cost changes and is not its
   * new cost or comes with another flag, or it was the last child-inherit one, stops to be, and an ancestor's route is
   * handed down past a capture.
   */
  lemma ChangeDependent(t: Table, p: Name, r: Route, prev: Option<Route>, d: Name)
    requires RecordsMatch(t) && p in t && Position(t[p].routes, r) < |t[p].routes| && FoundInherit(t, p, r, prev)
    requires Before(t, p, r).IsCapture() == r.IsCapture() && Dependent(t, p, d, r.faceId)
    ensures var f, was, e, anc := r.faceId, Before(t, p, r), InsertIntoEntry(t[p], r), Nearest(t, p, r.faceId);
            var before, left := LowestCost(t[p].routes, f, true), LowestCost(e.routes, f, true);
            Outcome(RegisteredCell(t, p, r, prev, d, f, NOTHING).pending, HandsDown(t[p], anc, f)) ==
            HandsDown(e, anc, f) <==>
              !(was.IsChildInherit() &&
                if r.IsChildInherit() then before != left && !(r.flags == was.flags && left == Some(r.cost))
                else left.None? && anc.Some? && t[p].HasCapture())
  {
    var f, was, e, anc := r.faceId, Before(t, p, r), InsertIntoEntry(t[p], r), Nearest(t, p, r.faceId);
    var others := LowestChanged(t[p], r, f, true);
    FaceStays(t[p], r);
    ChangeSets(t, p, r, prev);
    ChangeDependentCell(t, p, r, prev, d);
    var told := Cost(UpdatedAdd(r, was, prev, anc, f));
    var above := if t[p].HasCapture() then None else Cost(anc);
    if !was.IsChildInherit() || r.IsChildInherit() || others.Some? || !t[p].HasCapture() {
      var had, has := was.IsChildInherit(), r.IsChildInherit();
      ChangeRight(told, was.cost, r.cost, had, has, r.flags == was.flags, others, above);
    }
  }

  /** A new route on a face, whatever other routes are on it: the next hop has the lowest cost afterwards. */
  lemma AnotherOnFace(t: Table, p: Name, r: Route, prev: Option<Route>)
    requires RecordsMatch(t) && p in t && Position(t[p].routes, r) == |t[p].routes|
    ensures var f, before := r.faceId, LowestCost(t[p].routes, r.faceId, false);
            var lowest := LowestCost(InsertIntoEntry(t[p], r).routes, f, false);
            var pending := RegisteredCell(t, p, r, prev, p, f, NOTHING).pending;
            Outcome(pending, before) == lowest && (pending.Some? <==> before.None? || r.cost <= before.value)
  {
    LowestAppended(t[p], r, r.faceId, false);
    assert t[p].HasRecord(r.faceId) <==> Inherits(t, p, r.faceId);
    if !t[p].HasFace(r.faceId) {
      NoRouteNoCost(t[p].routes, r.faceId, false);
    }
  }

  /**
   * A name below holds what p hands down after that, except exactly if the route turns capture on, an ancestor offers
   * the face, and p hands down a cheaper route of its own.
   */
  lemma AnotherDependent(t: Table, p: Name, r: Route, prev: Option<Route>, d: Name)
    requires RecordsMatch(t) && p in t && Position(t[p].routes, r) == |t[p].routes| && CounterExact(t[p])
    requires Dependent(t, p, d, r.faceId)
    ensures var f, e, anc := r.faceId, InsertIntoEntry(t[p], r), Nearest(t, p, r.faceId);
            var before := LowestCost(t[p].routes, f, true);
            Outcome(RegisteredCell(t, p, r, prev, d, f, NOTHING).pending, HandsDown(t[p], anc, f)) ==
            HandsDown(e, anc, f) <==>
              !(!t[p].HasCapture() && r.IsCapture() && anc.Some? && before.Some? &&
                (r.IsChildInherit() ==> before.value < r.cost))
  {
    var f, e := r.faceId, t[p];
    var on := !e.HasCapture() && r.IsCapture();
    LowestAppended(e, r, f, true);
    CaptureCountMeaning(e.routes);
    NoneInherited(t, p, f);
    var add := if r.IsChildInherit() && BeatsLowest(r, LowestCost(e.routes, f, true)) then Some(r) else None;
    DependentTold(t, p, d, f, add, if on then Nearest(t, p, f) else None, NOTHING);
  }

  lemma NoneInherited(t: Table, p: Name, f: nat)
    requires p in t
    ensures LowestCost(t[p].routes, f, true).Some? <==> t[p].HasChildInherit(f)
    ensures Nearest(t, p, f).Some? && !t[p].HasCapture() ==> Passes(t, p, f).Some?
  {
    LowestCostMeaning(t[p].routes, f, true);
    FindInheritMeaning(t[p].routes, f);
    if r :| r in t[p].routes && Candidate(r, f, true) {
      var i :| 0 <= i < |t[p].routes| && t[p].routes[i] == r;
    }
  }

  // ----- examples -----

  /** "/" offers face 1 at cost 7 if it is there, and "/A" has two routes on face 1, at costs 5 and 10. */
  function TwoRoutesTable(above: bool): Table {
    (if above then map[[] := Entry([Plain(1, 1, 7)], [], 0)] else map[]) +
    map[[A] := Entry([Route(1, 0, 0, 5, 0), Route(1, 255, 0, 10, 0)], [], 0)]
  }

  /** Erasing the dearer route of "/A" removes its next hop, or leaves that of "/", although cost 5 is left. */
  lemma OneOfSeveralExample(above: bool)
    ensures var t, next := TwoRoutesTable(above), Route(1, 255, 0, 10, 0);
            SecondByCost(OnFace(t[[A]].routes, 1), next) &&
            LowestCost(EraseFromEntry(t[[A]], 1).routes, 1, false) == Some(5) &&
            UnregisteredCell(t, [A], 1, Some(next), [A], 1, NOTHING).pending ==
            Some(if above then AddUpdate([A], 1, 7) else RemoveUpdate([A], 1))
  {
    var t, next := TwoRoutesTable(above), Route(1, 255, 0, 10, 0);
    var routes := t[[A]].routes;
    assert routes[1..] == [next] && routes[..1] + routes[2..] == [routes[0]];
    assert OnFace(routes, 1) == routes by {
      assert OnFace([next], 1) == [next];
    }
    assert SecondAt(routes, 0, 1);
    assert LowestCost([next], 1, false) == Some(10) && LowestCost([routes[0]], 1, false) == Some(5);
    assert [A][..0] == [] && ScanUp(t, [A], 0, 0, 1) == Through;
    OneOfSeveral(t, [A], 1, next);
  }

  const TEN := Route(1, 255, 1, 10, 0)

  /** "/A" has a route of cost 5 and a child-inherit route of cost 10 on face 1, and "/A/B" inherits the latter. */
  function KeptTable(): Table {
    map[[A] := Entry([Route(1, 0, 0, 5, 0), TEN], [], 0), [A, B] := Entry([Plain(3, 0, 30)], [TEN], 0)]
  }

  lemma KeptFound(routes: seq<Route>, f: nat)
    requires |routes| == 2 && !routes[0].IsChildInherit() && routes[1] == TEN
    ensures (FindFace([TEN], f).Some? <==> f == 1) && (FindInherit(routes, f).Some? <==> f == 1)
  {
    assert routes[1..] == [TEN];
    assert FindInherit([TEN], f).Some? <==> f == 1;
  }

  lemma KeptErased(routes: seq<Route>)
    requires |routes| == 2 && routes[0] == Route(1, 0, 0, 5, 0) && routes[1] == TEN
    ensures OnFace(routes, 1) == routes && EraseFromEntry(Entry(routes, [], 0), 1) == Entry([routes[0]], [], 0)
    ensures CaptureCount(routes) == 0 && LowestCost([routes[0]], 1, true) == None
  {
    assert routes[1..] == [TEN] && routes[..1] == [routes[0]] && routes[..1] + routes[2..] == [routes[0]];
    assert OnFace([TEN], 1) == [TEN] && CaptureCount(routes[..1]) == 0;
  }

  lemma KeptMatches()
    ensures RecordsMatch(KeptTable()) && Dependent(KeptTable(), [A], [A, B], 1)
  {
    var t, n := KeptTable(), [A, B];
    assert n[..2] == n && n[..1] == [A] && n[..0] == [] && [A][..0] == [] && [A] < n;
    forall m, f: nat | m in t
      ensures t[m].HasRecord(f) <==> Inherits(t, m, f)
    {
      KeptFound(t[[A]].routes, f);
      assert FindFace([Plain(3, 0, 30)], f).Some? <==> f == 3;
    }
  }

  /** Erasing the child-inherit route of "/A" hands the erased route down to "/A/B". */
  lemma KeptBelowExample()
    ensures var t := KeptTable();
            RecordsMatch(t) && Dependent(t, [A], [A, B], 1) && SecondByCost(OnFace(t[[A]].routes, 1), TEN) &&
            UnregisteredCell(t, [A], 1, Some(TEN), [A, B], 1, NOTHING).pending == Some(AddUpdate([A, B], 1, 10)) &&
            HandsDown(EraseFromEntry(t[[A]], 1), Nearest(t, [A], 1), 1) == None
  {
    var t := KeptTable();
    KeptMatches();
    KeptErased(t[[A]].routes);
    assert SecondAt(t[[A]].routes, 0, 1);
    assert [A][..0] == [] && ScanUp(t, [A], 0, 1, 1) == Through;
    DependentCell(t, [A], 1, TEN, [A, B]);
  }

  /** "/A" has two child-inherit routes on face 1, at costs 5 and 10, and "/A/B" inherits the cheaper one. */
  function RaisedTable(): Table {
    map[[A] := Entry([Plain(1, 1, 5), TEN], [], 0), [A, B] := Entry([Plain(3, 0, 30)], [Plain(1, 1, 5)], 0)]
  }

  lemma RaisedRoutes(routes: seq<Route>, f: nat)
    requires routes == [Plain(1, 1, 5), TEN]
    ensures (FindInherit(routes, f).Some? <==> f == 1) && (FindFace([Plain(1, 1, 5)], f).Some? <==> f == 1)
    ensures CaptureCount(routes) == 0 && LowestCost(routes, 1, true) == Some(5)
    ensures Position(routes, Plain(1, 1, 20)) == 0 && routes[0 := Plain(1, 1, 20)] == [Plain(1, 1, 20), TEN]
  {
    assert routes[1..] == [TEN] && CaptureCount(routes[..1]) == 0;
    assert FindInherit([TEN], f).Some? <==> f == 1;
    assert LowestCost([TEN], 1, true) == Some(10);
  }

  lemma RaisedCosts(after: seq<Route>)
    requires after == [Plain(1, 1, 20), TEN]
    ensures LowestCost(after, 1, false) == LowestCost(after, 1, true) == Some(10) && FindFace(after, 1).Some?
    ensures CheapestInherit(after, 1, Some(TEN))
  {
    assert after[1..] == [TEN];
    assert LowestCost([TEN], 1, false) == LowestCost([TEN], 1, true) == Some(10);
    assert after[1] == TEN && FindInherit(after, 1) == Some(after[0]);
  }

  lemma RaisedMatches()
    ensures RecordsMatch(RaisedTable()) && Dependent(RaisedTable(), [A], [A, B], 1)
  {
    var t, n := RaisedTable(), [A, B];
    assert n[..2] == n && n[..1] == [A] && n[..0] == [] && [A][..0] == [] && [A] < n;
    forall m, f: nat | m in t
      ensures t[m].HasRecord(f) <==> Inherits(t, m, f)
    {
      RaisedRoutes(t[[A]].routes, f);
      assert FindFace([Plain(3, 0, 30)], f).Some? <==> f == 3;
    }
  }

  /** The cheaper route of "/A" rises to 20: "/A" is told 10, and "/A/B" is told nothing, so that it stays at 5. */
  lemma RaisedExample()
    ensures var t, r := RaisedTable(), Plain(1, 1, 20);
            RecordsMatch(t) && Dependent(t, [A], [A, B], 1) && FoundInherit(t, [A], r, Some(TEN)) &&
            RegistrationDefined(t, [A], r, Some(TEN)) &&
            RegisteredCell(t, [A], r, Some(TEN), [A], 1, NOTHING).pending == Some(AddUpdate([A], 1, 10)) &&
            RegisteredCell(t, [A], r, Some(TEN), [A, B], 1, NOTHING).pending == None &&
            HandsDown(InsertIntoEntry(t[[A]], r), Nearest(t, [A], 1), 1) == Some(10)
  {
    var t, r := RaisedTable(), Plain(1, 1, 20);
    RaisedMatches();
    RaisedRoutes(t[[A]].routes, 1);
    RaisedCosts(InsertIntoEntry(t[[A]], r).routes);
    ChangeTold(t, [A], r, Some(TEN));
    ChangeDependentCell(t, [A], r, Some(TEN), [A, B]);
    ChangeSets(t, [A], r, Some(TEN));
  }
}
