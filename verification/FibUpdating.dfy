/** From one RIB change to FIB updates (fib-updater.cpp). */
module FibUpdating {
  import opened Wrappers
  import opened Names
  import opened Routes
  import opened RibModel
  import opened RibTable
  import opened FibUpdates
  import opened FibWalk
  import opened FibAgreement
  import opened FibFlips
  import opened FibRecords

  class FibUpdater {
    const rib: Rib
    var batchFaceId: nat
    var updatesForBatchFaceId: seq<FibUpdate>
    var updatesForNonBatchFaceId: seq<FibUpdate>
    var inheritedRoutes: seq<RibUpdate>

    constructor (rib: Rib)
      ensures this.rib == rib && Work() == Lists(0, [], [], [])
    {
      this.rib := rib;
      batchFaceId := 0;
      updatesForBatchFaceId, updatesForNonBatchFaceId, inheritedRoutes := [], [], [];
    }

    ghost function Work(): Lists
      reads this
    {
      Lists(batchFaceId, updatesForBatchFaceId, updatesForNonBatchFaceId, inheritedRoutes)
    }

    /** The RIB that the updater reads, as a tree of entries and as the value t. */
    ghost predicate Reads(t: Table)
      reads rib, rib.table.Values
    {
      NamesOk(rib.table) && TreeOk(rib.table) && t == StateOf(rib.table)
    }

    /** std::find_if over the list of the update's face, then replace or append. */
    method AddFibUpdate(update: FibUpdate)
      requires ListsOk(Work())
      modifies this`updatesForBatchFaceId, this`updatesForNonBatchFaceId
      ensures Work() == Add(old(Work()), update)
    {
      var updates := if update.faceId == batchFaceId then updatesForBatchFaceId else updatesForNonBatchFaceId;
      var it := 0;
      while it < |updates| && !(updates[it].name == update.name && updates[it].faceId == update.faceId)
        invariant it <= |updates|
        invariant PositionOf(updates, update.name, update.faceId) ==
                  it + PositionOf(updates[it..], update.name, update.faceId)
      {
        it := it + 1;
      }
      if it < |updates| {
        updates := updates[it := updates[it].(action := update.action, cost := update.cost)];
      } else {
        updates := updates + [update];
      }
      if update.faceId == batchFaceId {
        updatesForBatchFaceId := updates;
      } else {
        updatesForNonBatchFaceId := updates;
      }
    }

    method AddInheritedRoute(name: Name, route: Route)
      modifies this`inheritedRoutes
      ensures inheritedRoutes == old(inheritedRoutes) + [RibUpdate(Register, name, route)]
    {
      inheritedRoutes := inheritedRoutes + [RibUpdate(Register, name, route)];
    }

    method RemoveInheritedRoute(name: Name, route: Route)
      modifies this`inheritedRoutes
      ensures inheritedRoutes == old(inheritedRoutes) + [RibUpdate(Unregister, name, route)]
    {
      inheritedRoutes := inheritedRoutes + [RibUpdate(Unregister, name, route)];
    }

    /** A name takes an inherited route: the record, then the update. */
    method Inherit(name: Name, route: Route)
      requires ListsOk(Work())
      modifies this
      ensures ChangedAt(old(Work()), Work(), name, route.faceId,
                        Inheriting(name, route.faceId, route, old(CellAt(Work(), name, route.faceId))))
    {
      RecordChanges(Work(), RibUpdate(Register, name, route), AddUpdate(name, route.faceId, route.cost));
      AddInheritedRoute(name, route);
      AddFibUpdate(AddUpdate(name, route.faceId, route.cost));
    }

    /** A name loses an inherited route: the record, then the update. */
    method Disinherit(name: Name, route: Route)
      requires ListsOk(Work())
      modifies this
      ensures ChangedAt(old(Work()), Work(), name, route.faceId,
                        Disinheriting(name, route.faceId, route, old(CellAt(Work(), name, route.faceId))))
    {
      RecordChanges(Work(), RibUpdate(Unregister, name, route), RemoveUpdate(name, route.faceId));
      RemoveInheritedRoute(name, route);
      AddFibUpdate(RemoveUpdate(name, route.faceId));
    }

    // ----- traverseSubTree -----

    /** The first loop: remove inherited routes from the entry, and drop the routes it overrides from the set. */
    method RemoveFromEntry(entry: RibEntry, routesToRemove: RouteSet) returns (remaining: RouteSet)
      requires ListsOk(Work()) && WellKeyed(routesToRemove)
      modifies this
      ensures EntryDone(old(Work()), Work(), entry.View(), entry.name, map[], routesToRemove)
      ensures remaining == WithoutOverridden(routesToRemove, entry.View())
    {
      ghost var before, e := Work(), entry.View();
      remaining := routesToRemove;
      var rest := routesToRemove.Keys;
      while rest != {}
        invariant rest <= routesToRemove.Keys
        invariant remaining == map f | f in routesToRemove && (f in rest || !e.HasChildInherit(f)) :: routesToRemove[f]
        invariant EntryDone(before, Work(), e, entry.name, map[], routesToRemove - rest)
        decreases rest
      {
        ghost var now := Work();
        var f :| f in rest;
        assert routesToRemove - rest == routesToRemove - (rest - {f}) - {f};
        rest := rest - {f};
        var overridden := entry.HasChildInheritOnFaceId(f);
        if overridden {
          remaining := remaining - {f};
        } else {
          var inherited := entry.HasInheritedRoute(routesToRemove[f]);
          if inherited {
            Disinherit(entry.name, routesToRemove[f]);
          }
        }
        EntryRemoveStep(before, now, Work(), e, entry.name, routesToRemove, rest, f);
      }
      assert routesToRemove - {} == routesToRemove;
    }

    /** The second loop: add inherited routes to the entry, and drop the routes it overrides from the set. */
    method AddToEntry(entry: RibEntry, routesToAdd: RouteSet, ghost routesToRemove: RouteSet, ghost before: Lists)
      returns (remaining: RouteSet)
      requires WellKeyed(routesToAdd) && EntryDone(before, Work(), entry.View(), entry.name, map[], routesToRemove)
      modifies this
      ensures EntryDone(before, Work(), entry.View(), entry.name, routesToAdd, routesToRemove)
      ensures remaining == WithoutOverridden(routesToAdd, entry.View())
    {
      ghost var e := entry.View();
      remaining := routesToAdd;
      var rest := routesToAdd.Keys;
      assert routesToAdd - rest == map[];
      while rest != {}
        invariant rest <= routesToAdd.Keys
        invariant remaining == map f | f in routesToAdd && (f in rest || !e.HasChildInherit(f)) :: routesToAdd[f]
        invariant EntryDone(before, Work(), e, entry.name, routesToAdd - rest, routesToRemove)
        decreases rest
      {
        ghost var now := Work();
        var f :| f in rest;
        assert routesToAdd - rest == routesToAdd - (rest - {f}) - {f};
        rest := rest - {f};
        var overridden := entry.HasChildInheritOnFaceId(f);
        if overridden {
          remaining := remaining - {f};
        } else {
          var hasFace := entry.HasFaceId(f);
          if !hasFace {
            Inherit(entry.name, routesToAdd[f]);
          }
        }
        EntryAddStep(before, now, Work(), e, entry.name, routesToAdd, routesToRemove, rest, f);
      }
      assert routesToAdd - {} == routesToAdd;
    }

    /** The list of the children that p has, or would have if it were a key. */
    ghost predicate ListsChildren(children: seq<RibEntry>, p: Name)
      reads rib, rib.table.Values
    {
      NoDuplicates(children) &&
      (forall c | c in children :: c in rib.table.Values && IsChild(rib.table.Keys, p, c.name)) &&
      (forall n | n in rib.table && IsChild(rib.table.Keys, p, n) :: rib.table[n] in children)
    }

    lemma ChildrenOfEntry(t: Table, entry: RibEntry)
      requires Reads(t) && entry in rib.table.Values
      ensures ListsChildren(entry.children, entry.name)
    {
      var p := entry.name;
      forall n | n in rib.table
        ensures IsChild(rib.table.Keys, p, n) <==> rib.table[n] in entry.children
      {
        ChildMeansParent(rib.table.Keys, p, n);
        assert rib.table[n].parent == ParentIn(rib.table, n);
      }
    }

    method TraverseSubTree(entry: RibEntry, routesToAdd: RouteSet, routesToRemove: RouteSet, ghost t: Table)
      requires Reads(t) && entry in rib.table.Values
      requires ListsOk(Work()) && WellKeyed(routesToAdd) && WellKeyed(routesToRemove)
      modifies this
      ensures SubtreeDone(old(Work()), Work(), t, entry.name, routesToAdd, routesToRemove)
      decreases Under(t.Keys, entry.name), 2
    {
      ghost var before, p := Work(), entry.name;
      assert rib.table[p] == entry && t[p] == entry.View();
      if entry.HasCapture() {
        CapturedSubtree(before, t, p, routesToAdd, routesToRemove);
        return;
      }
      var remove := RemoveFromEntry(entry, routesToRemove);
      var add := AddToEntry(entry, routesToAdd, routesToRemove, before);
      ghost var mid := Work();
      ChildrenOfEntry(t, entry);
      ModifyChildrensInheritedRoutes(entry.children, add, remove, p, t);
      SubtreeFromParts(before, mid, Work(), t, p, routesToAdd, routesToRemove);
    }

    method ModifyChildrensInheritedRoutes(children: seq<RibEntry>, routesToAdd: RouteSet, routesToRemove: RouteSet,
                                          ghost p: Name, ghost t: Table)
      requires Reads(t) && ListsChildren(children, p)
      requires ListsOk(Work()) && WellKeyed(routesToAdd) && WellKeyed(routesToRemove)
      modifies this
      ensures BelowDone(old(Work()), Work(), t, p, routesToAdd, routesToRemove)
      decreases Under(t.Keys, p), 1
    {
      ghost var names := ChildNames(children, p, t);
      VisitChildren(children, routesToAdd, routesToRemove, names, p, t);
    }

    /** The loop over the children, with their names. */
    method VisitChildren(children: seq<RibEntry>, routesToAdd: RouteSet, routesToRemove: RouteSet,
                         ghost names: seq<Name>, ghost p: Name, ghost t: Table)
      requires Reads(t) && ListsOk(Work()) && WellKeyed(routesToAdd) && WellKeyed(routesToRemove)
      requires |names| == |children| && forall j :: 0 <= j < |children| ==>
                 children[j] in rib.table.Values && children[j].name == names[j]
      requires forall i, j :: 0 <= i < j < |names| ==> names[i] != names[j]
      requires forall n :: n in Firsts(names, |names|) <==> IsChild(t.Keys, p, n)
      modifies this
      ensures BelowDone(old(Work()), Work(), t, p, routesToAdd, routesToRemove)
      decreases Under(t.Keys, p), 0
    {
      ghost var before := Work();
      var i := 0;
      while i < |children|
        invariant i <= |children|
        invariant ChildrenDone(before, Work(), t, p, Firsts(names, i), routesToAdd, routesToRemove)
      {
        ghost var now := Work();
        FirstsNext(names, i);
        assert IsChild(t.Keys, p, names[i]);
        UnderShrinks(t.Keys, p, names[i]);
        TraverseSubTree(children[i], routesToAdd, routesToRemove, t);
        ChildStep(before, now, Work(), t, p, Firsts(names, i), names[i], routesToAdd, routesToRemove);
        i := i + 1;
      }
      AllChildrenDone(before, Work(), t, p, Firsts(names, |names|), routesToAdd, routesToRemove);
    }

    lemma ChildNames(children: seq<RibEntry>, p: Name, t: Table) returns (names: seq<Name>)
      requires Reads(t) && ListsChildren(children, p)
      ensures |names| == |children| && forall j :: 0 <= j < |children| ==> children[j].name == names[j]
      ensures forall i, j :: 0 <= i < j < |names| ==> names[i] != names[j]
      ensures forall n :: n in Firsts(names, |names|) <==> IsChild(t.Keys, p, n)
    {
      names := seq(|children|, j requires 0 <= j < |children| reads children => children[j].name);
      assert forall e | e in children :: e in rib.table.Values && rib.table[e.name] == e;
      forall n
        ensures n in Firsts(names, |names|) <==> IsChild(t.Keys, p, n)
      {
        if IsChild(t.Keys, p, n) {
          assert rib.table[n] in children;
          var j :| 0 <= j < |children| && children[j] == rib.table[n];
          assert names[j] == n;
        }
      }
    }

    // ----- inherited routes of the changed name -----

    method AddInheritedRoutesToName(name: Name, routesToAdd: RouteSet, ignore: Route)
      requires ListsOk(Work()) && WellKeyed(routesToAdd)
      modifies this
      ensures InheritedAt(old(Work()), Work(), name, routesToAdd - {ignore.faceId})
    {
      ghost var before := Work();
      var rest := routesToAdd.Keys;
      ghost var added: RouteSet := map[];
      while rest != {}
        invariant rest <= routesToAdd.Keys
        invariant added == map f | f in routesToAdd && f !in rest && f != ignore.faceId :: routesToAdd[f]
        invariant InheritedAt(before, Work(), name, added)
        decreases rest
      {
        ghost var now, prev := Work(), added;
        var f :| f in rest;
        rest := rest - {f};
        if f != ignore.faceId {
          added := added[f := routesToAdd[f]];
          Inherit(name, routesToAdd[f]);
          InheritStep(before, now, Work(), name, prev, added, f);
        }
      }
      assert added == routesToAdd - {ignore.faceId};
    }

    method AddInheritedRoutes(entry: RibEntry, routesToAdd: RouteSet)
      requires ListsOk(Work()) && WellKeyed(routesToAdd)
      modifies this
      ensures InheritedAt(old(Work()), Work(), entry.name, WithoutOwn(routesToAdd, entry.View()))
    {
      ghost var before, e := Work(), entry.View();
      var rest := routesToAdd.Keys;
      ghost var added: RouteSet := map[];
      while rest != {}
        invariant rest <= routesToAdd.Keys
        invariant added == map f | f in routesToAdd && f !in rest && !e.HasFace(f) :: routesToAdd[f]
        invariant InheritedAt(before, Work(), entry.name, added)
        decreases rest
      {
        ghost var now, prev := Work(), added;
        var f :| f in rest;
        rest := rest - {f};
        var hasFace := entry.HasFaceId(f);
        if !hasFace {
          added := added[f := routesToAdd[f]];
          Inherit(entry.name, routesToAdd[f]);
          InheritStep(before, now, Work(), entry.name, prev, added, f);
        }
      }
    }

    method RemoveInheritedRoutes(entry: RibEntry, routesToRemove: RouteSet)
      requires ListsOk(Work()) && WellKeyed(routesToRemove)
      modifies this
      ensures DisinheritedAt(old(Work()), Work(), entry.name, WithRecord(routesToRemove, entry.View()))
    {
      ghost var before, e := Work(), entry.View();
      var rest := routesToRemove.Keys;
      ghost var removed: RouteSet := map[];
      while rest != {}
        invariant rest <= routesToRemove.Keys
        invariant removed == map f | f in routesToRemove && f !in rest && e.HasRecord(f) :: routesToRemove[f]
        invariant DisinheritedAt(before, Work(), entry.name, removed)
        decreases rest
      {
        ghost var now, prev := Work(), removed;
        var f :| f in rest;
        rest := rest - {f};
        var inherited := entry.HasInheritedRoute(routesToRemove[f]);
        if inherited {
          removed := removed[f := routesToRemove[f]];
          Disinherit(entry.name, routesToRemove[f]);
          DisinheritStep(before, now, Work(), entry.name, prev, removed, f);
        }
      }
    }

    // ----- a new name -----

    method CreateFibUpdatesForNewRibEntry(name: Name, route: Route, children: seq<RibEntry>, ghost t: Table)
      requires Reads(t) && ListsChildren(children, name) && ListsOk(Work())
      modifies this
      ensures ListsOk(Work()) && batchFaceId == old(batchFaceId)
      ensures forall d: Name, f: nat ::
                CellAt(Work(), d, f) == NewEntryCell(t, name, route, d, f, old(CellAt(Work(), d, f)))
    {
      ghost var w0 := Work();
      AddPending(w0, AddUpdate(name, route.faceId, route.cost), [], 0);
      AddFibUpdate(AddUpdate(name, route.faceId, route.cost));
      ghost var w1 := Work();
      var parent := rib.FindParent(name);
      var anc := rib.CollectAncestorRoutes(name, parent);
      NoStep(w1, t, name);
      ghost var w2, add, remove := CreateInheritedUpdatesForNewRibEntry(name, route, children, anc, t);
      NewEntryComposed(w0, w1, w2, Work(), t, name, route, anc, add, remove);
    }

    /** The four flag combinations; w2 is the work between the name itself and its children. */
    method CreateInheritedUpdatesForNewRibEntry(name: Name, route: Route, children: seq<RibEntry>, anc: RouteSet,
                                                ghost t: Table)
      returns (ghost w2: Lists, ghost add: RouteSet, ghost remove: RouteSet)
      requires Reads(t) && ListsChildren(children, name) && ListsOk(Work()) && WellKeyed(anc)
      modifies this
      ensures InheritedAt(old(Work()), w2, name, if route.IsCapture() then map[] else anc - {route.faceId})
      ensures BelowDone(w2, Work(), t, name, add, remove) && NewEntrySets(route, anc, add, remove)
    {
      w2, add, remove := Work(), map[], map[];
      NoStep(w2, t, name);
      if !route.IsChildInherit() && !route.IsCapture() {
        AddInheritedRoutesToName(name, anc, route);
        w2 := Work();
        NoStep(w2, t, name);
      } else if route.IsChildInherit() && route.IsCapture() {
        var routesToAdd: RouteSet := map[route.faceId := route];
        ModifyChildrensInheritedRoutes(children, routesToAdd, anc, name, t);
        add, remove := routesToAdd, anc;
      } else if route.IsChildInherit() {
        AddInheritedRoutesToName(name, anc, route);
        w2 := Work();
        var routesToAdd := InsertRoute(anc - {route.faceId}, route);
        ModifyChildrensInheritedRoutes(children, routesToAdd, map[], name, t);
        add := routesToAdd;
      } else {
        ModifyChildrensInheritedRoutes(children, map[], anc, name, t);
        remove := anc;
      }
    }

    // ----- a new route of an existing name -----

    /** The entry, or a copy of it, hangs in the tree where its name says. */
    ghost predicate InPlace(entry: RibEntry)
      reads rib, rib.table.Values, entry
    {
      ListsChildren(entry.children, entry.name) && entry.parent == ParentIn(rib.table, entry.name)
    }

    method CreateFibUpdatesForNewRoute(entry: RibEntry, route: Route, captureWasTurnedOn: bool, ghost t: Table)
      requires Reads(t) && InPlace(entry) && ListsOk(Work())
      modifies this
      ensures ListsOk(Work()) && batchFaceId == old(batchFaceId)
      ensures forall d: Name, f: nat ::
                CellAt(Work(), d, f) ==
                NewRouteCell(t, entry.View(), entry.name, route, captureWasTurnedOn, d, f, old(CellAt(Work(), d, f)))
    {
      ghost var w0, e := Work(), entry.View();
      var prevRoute := entry.GetRouteWithLowestCostAndChildInheritByFaceId(route.faceId);
      FindInheritMeaning(entry.routes, route.faceId);
      LowestCostOf(entry.routes, route.faceId, true, prevRoute);
      var routesToAdd: RouteSet := map[];
      if route.IsChildInherit() {
        if prevRoute.None? || route.cost <= prevRoute.value.cost {
          routesToAdd := map[route.faceId := route];
        }
      }
      var routesToRemove := DropAncestorRoutes(entry, captureWasTurnedOn, t);
      ghost var w1 := Work();
      ModifyChildrensInheritedRoutes(entry.children, routesToAdd, routesToRemove, entry.name, t);
      ghost var w2 := Work();
      InstallRoute(entry, route);
      NewRouteComposed(w0, w1, w2, Work(), t, e, entry.name, route, captureWasTurnedOn, routesToRemove, routesToAdd,
                       routesToRemove);
    }

    /** If capture is turned on, the ancestor routes go, from the name itself first. */
    method DropAncestorRoutes(entry: RibEntry, captureWasTurnedOn: bool, ghost t: Table)
      returns (routesToRemove: RouteSet)
      requires Reads(t) && InPlace(entry) && ListsOk(Work())
      modifies this
      ensures WellKeyed(routesToRemove)
      ensures if captureWasTurnedOn then IsAncestorSet(routesToRemove, t, entry.name) else routesToRemove == map[]
      ensures DisinheritedAt(old(Work()), Work(), entry.name, WithRecord(routesToRemove, entry.View()))
    {
      routesToRemove := map[];
      NoStep(Work(), t, entry.name);
      if captureWasTurnedOn {
        routesToRemove := rib.CollectAncestorRoutes(entry.name, entry.parent);
        RemoveInheritedRoutes(entry, routesToRemove);
      }
    }

    /** The route's own update, unless a cheaper route on the face is installed. */
    method InstallRoute(entry: RibEntry, route: Route)
      requires ListsOk(Work())
      modifies this
      ensures Work() == if BeatsLowest(route, LowestCost(entry.routes, route.faceId, false)) then
                          Add(old(Work()), AddUpdate(entry.name, route.faceId, route.cost))
                        else old(Work())
    {
      var other := entry.GetRouteWithLowestCostByFaceId(route.faceId);
      FindFaceMeaning(entry.routes, route.faceId);
      LowestCostOf(entry.routes, route.faceId, false, other);
      if other.None? || route.cost <= other.value.cost {
        AddFibUpdate(AddUpdate(entry.name, route.faceId, route.cost));
      }
    }

    // ----- a changed route -----

    /** entry is a copy of the table's entry with the new flags and cost; undefined is a null dereference. */
    method CreateFibUpdatesForUpdatedRoute(entry: RibEntry, route: Route, existingRoute: Route, ghost t: Table)
      returns (defined: bool, ghost prev: Option<Route>)
      requires Reads(t) && InPlace(entry) && ListsOk(Work()) && entry.View().HasFace(route.faceId)
      modifies this
      ensures ListsOk(Work()) && batchFaceId == old(batchFaceId)
      ensures CheapestInherit(entry.routes, route.faceId, prev)
      ensures defined <==> UpdateDefined(entry.View(), route, existingRoute, prev)
      ensures defined ==>
                forall d: Name, f: nat ::
                  CellAt(Work(), d, f) ==
                  UpdatedRouteCell(t, entry.View(), entry.name, route, existingRoute, prev, d, f,
                                   old(CellAt(Work(), d, f)))
    {
      ghost var w0 := Work();
      var costDidChange := route.cost != existingRoute.cost;
      var prevRoute := entry.GetRouteWithLowestCostAndChildInheritByFaceId(route.faceId);
      prev, defined := prevRoute, true;
      if route.flags == existingRoute.flags && !costDidChange {
        return;
      }
      if costDidChange {
        defined := UpdateOwnCost(entry, route, existingRoute, prevRoute);
        if !defined {
          return;
        }
      }
      UpdateOthers(entry, route, existingRoute, prevRoute, w0, t);
    }

    /** The rest: the children for a changed cost alone, otherwise the flags. */
    method UpdateOthers(entry: RibEntry, route: Route, existingRoute: Route, prevRoute: Option<Route>, ghost w0: Lists,
                        ghost t: Table)
      requires Reads(t) && InPlace(entry) && ListsOk(Work()) && batchFaceId == w0.batchFaceId
      requires prevRoute.Some? ==> prevRoute.value.faceId == route.faceId
      requires forall d: Name, f: nat ::
                 CellAt(Work(), d, f) == UpdatedCostCell(entry.View(), entry.name, route, existingRoute, prevRoute, d,
                                                         f, CellAt(w0, d, f))
      modifies this
      ensures ListsOk(Work()) && batchFaceId == w0.batchFaceId
      ensures forall d: Name, f: nat ::
                CellAt(Work(), d, f) ==
                UpdatedRouteCell(t, entry.View(), entry.name, route, existingRoute, prevRoute, d, f, CellAt(w0, d, f))
    {
      ghost var e, p, w1 := entry.View(), entry.name, Work();
      if route.cost != existingRoute.cost && (prevRoute.None? || route.cost <= prevRoute.value.cost) &&
         route.flags == existingRoute.flags && route.IsChildInherit() {
        var routesToAdd: RouteSet := map[route.faceId := route];
        ModifyChildrensInheritedRoutes(entry.children, routesToAdd, map[], p, t);
        UpdatedRouteComposed(w0, w1, Work(), Work(), Work(), t, e, p, route, existingRoute, prevRoute, routesToAdd,
                             map[], map[]);
        return;
      }
      ghost var add, remove := UpdateChildInherit(entry, route, existingRoute, prevRoute, t);
      ghost var w2 := Work();
      ghost var w3, anc := UpdateCapture(entry, route, existingRoute, t);
      UpdatedRouteComposed(w0, w1, w2, w3, Work(), t, e, p, route, existingRoute, prevRoute, add, remove, anc);
    }

    method AddOwnUpdate(update: FibUpdate)
      requires ListsOk(Work())
      modifies this`updatesForBatchFaceId, this`updatesForNonBatchFaceId
      ensures ListsOk(Work())
      ensures forall d: Name, f: nat :: CellAt(Work(), d, f) == OwnCell(update, d, f, old(CellAt(Work(), d, f)))
    {
      AddChanges(Work(), update);
      AddFibUpdate(update);
    }

    /** The entry's own update when the cost of a route changed. */
    method UpdateOwnCost(entry: RibEntry, route: Route, existingRoute: Route, prevRoute: Option<Route>)
      returns (defined: bool)
      requires ListsOk(Work()) && entry.View().HasFace(route.faceId) && route.cost != existingRoute.cost
      modifies this
      ensures ListsOk(Work()) && batchFaceId == old(batchFaceId)
      ensures defined <==> UpdateDefined(entry.View(), route, existingRoute, prevRoute)
      ensures forall d: Name, f: nat ::
                CellAt(Work(), d, f) ==
                UpdatedCostCell(entry.View(), entry.name, route, existingRoute, prevRoute, d, f,
                                old(CellAt(Work(), d, f)))
    {
      var lowest := entry.GetRouteWithLowestCostByFaceId(route.faceId);
      FindFaceMeaning(entry.routes, route.faceId);
      LowestCostOf(entry.routes, route.faceId, false, lowest);
      defined := true;
      if route.cost <= lowest.value.cost {
        AddOwnUpdate(AddUpdate(entry.name, route.faceId, route.cost));
      } else if existingRoute.cost < lowest.value.cost {
        if prevRoute.None? {
          return false;
        }
        AddOwnUpdate(AddUpdate(entry.name, prevRoute.value.faceId, prevRoute.value.cost));
      }
    }

    method UpdateChildInherit(entry: RibEntry, route: Route, existingRoute: Route, prevRoute: Option<Route>,
                              ghost t: Table)
      returns (ghost add: RouteSet, ghost remove: RouteSet)
      requires Reads(t) && InPlace(entry) && ListsOk(Work()) &&
               (prevRoute.Some? ==> prevRoute.value.faceId == route.faceId)
      requires route.flags == existingRoute.flags ==>
                 !(route.cost != existingRoute.cost && route.IsChildInherit() && NoCheaper(route, prevRoute))
      modifies this
      ensures BelowDone(old(Work()), Work(), t, entry.name, add, remove)
      ensures UpdatedSets(t, entry.name, route, existingRoute, prevRoute, add, remove)
    {
      add, remove := map[], map[];
      NoStep(Work(), t, entry.name);
      if !existingRoute.IsChildInherit() && route.IsChildInherit() {
        if prevRoute.None? || route.cost <= prevRoute.value.cost {
          var routesToAdd: RouteSet := map[route.faceId := route];
          ModifyChildrensInheritedRoutes(entry.children, routesToAdd, map[], entry.name, t);
          add := routesToAdd;
        }
      } else if existingRoute.IsChildInherit() && !route.IsChildInherit() {
        var routesToRemove: RouteSet := map[route.faceId := route];
        var routesToAdd: RouteSet := map[];
        if prevRoute.Some? {
          routesToAdd := map[route.faceId := prevRoute.value];
        } else {
          var ancestorRoutes := rib.CollectAncestorRoutes(entry.name, entry.parent);
          if route.faceId in ancestorRoutes {
            routesToAdd := map[route.faceId := ancestorRoutes[route.faceId]];
          }
          assert Nearest(t, entry.name, route.faceId) == Get(routesToAdd, route.faceId);
        }
        ModifyChildrensInheritedRoutes(entry.children, routesToAdd, routesToRemove, entry.name, t);
        add, remove := routesToAdd, routesToRemove;
      }
    }

    method UpdateCapture(entry: RibEntry, route: Route, existingRoute: Route, ghost t: Table)
      returns (ghost w3: Lists, ghost anc: RouteSet)
      requires Reads(t) && InPlace(entry) && ListsOk(Work())
      modifies this
      ensures CaptureUpdated(old(Work()), w3, Work(), t, entry.View(), entry.name, route, existingRoute, anc)
    {
      w3, anc := Work(), map[];
      if !existingRoute.IsCapture() && route.IsCapture() {
        var ancestorRoutes := rib.CollectAncestorRoutes(entry.name, entry.parent);
        RemoveInheritedRoutes(entry, ancestorRoutes);
        w3, anc := Work(), ancestorRoutes;
        ModifyChildrensInheritedRoutes(entry.children, map[], ancestorRoutes, entry.name, t);
      } else if existingRoute.IsCapture() && !route.IsCapture() {
        var ancestorRoutes := rib.CollectAncestorRoutes(entry.name, entry.parent);
        AddInheritedRoutes(entry, ancestorRoutes);
        w3, anc := Work(), ancestorRoutes;
        ModifyChildrensInheritedRoutes(entry.children, ancestorRoutes, map[], entry.name, t);
      }
    }

    // ----- an erased route -----

    /** entry is a copy of the table's entry without the route. */
    method CreateFibUpdatesForErasedRoute(entry: RibEntry, route: Route, captureWasTurnedOff: bool, ghost t: Table)
      requires Reads(t) && InPlace(entry) && ListsOk(Work())
      modifies this
      ensures ListsOk(Work()) && batchFaceId == old(batchFaceId)
      ensures forall d: Name, f: nat ::
                CellAt(Work(), d, f) ==
                ErasedRouteCell(t, entry.View(), entry.name, route, captureWasTurnedOff, d, f,
                                old(CellAt(Work(), d, f)))
    {
      ghost var w0, e, p := Work(), entry.View(), entry.name;
      AddPending(w0, RemoveUpdate(p, route.faceId), [], 0);
      AddFibUpdate(RemoveUpdate(entry.name, route.faceId));
      ghost var w1 := Work();
      ghost var w2, anc, self, add, remove :=
        CreateInheritedUpdatesForErasedRoute(entry, route, captureWasTurnedOff, t);
      ghost var w3 := Work();
      TakeOver(entry, route.faceId, anc, t);
      ErasedRouteComposed(w0, w1, w2, w3, Work(), t, e, p, route, captureWasTurnedOff, anc, self, add, remove);
    }

    /** An ancestor's route on the face of the erased route comes to the name itself. */
    method TakeOver(entry: RibEntry, faceId: nat, ghost anc: RouteSet, ghost t: Table)
      requires Reads(t) && InPlace(entry) && ListsOk(Work()) && IsAncestorSet(anc, t, entry.name)
      modifies this
      ensures if !entry.HasCapture() && |entry.routes| != 0 && faceId in anc then
                ChangedAt(old(Work()), Work(), entry.name, faceId,
                          Inheriting(entry.name, faceId, anc[faceId], old(CellAt(Work(), entry.name, faceId))))
              else Work() == old(Work())
    {
      var ancestorRoutes := rib.CollectAncestorRoutes(entry.name, entry.parent);
      SameAncestors(anc, ancestorRoutes, t, entry.name);
      if !entry.HasCapture() && |entry.routes| != 0 {
        if faceId in ancestorRoutes {
          Inherit(entry.name, ancestorRoutes[faceId]);
        }
      }
    }

    /** The three flag combinations with an effect on the children; w2 is the work between the name and its children. */
    method CreateInheritedUpdatesForErasedRoute(entry: RibEntry, route: Route, captureWasTurnedOff: bool,
                                                ghost t: Table)
      returns (ghost w2: Lists, ghost anc: RouteSet, ghost self: RouteSet, ghost add: RouteSet, ghost remove: RouteSet)
      requires Reads(t) && InPlace(entry) && ListsOk(Work())
      modifies this
      ensures IsAncestorSet(anc, t, entry.name)
      ensures ErasedRouteSets(entry.View(), route, captureWasTurnedOff, anc, self, add, remove)
      ensures InheritedAt(old(Work()), w2, entry.name, self) && BelowDone(w2, Work(), t, entry.name, add, remove)
    {
      var ancestorRoutes := rib.CollectAncestorRoutes(entry.name, entry.parent);
      anc, self, add, remove, w2 := ancestorRoutes, map[], map[], map[], Work();
      NoStep(w2, t, entry.name);
      if route.IsChildInherit() && route.IsCapture() {
        var routesToRemove: RouteSet := map[route.faceId := route];
        var routesToAdd: RouteSet := map[];
        if captureWasTurnedOff && |entry.routes| != 0 {
          routesToAdd := ancestorRoutes;
          AddInheritedRoutes(entry, routesToAdd);
          self, w2 := WithoutOwn(routesToAdd, entry.View()), Work();
        }
        add, remove := routesToAdd, routesToRemove;
        ModifyChildrensInheritedRoutes(entry.children, routesToAdd, routesToRemove, entry.name, t);
      } else if route.IsChildInherit() {
        var routesToAdd: RouteSet := map[];
        if !entry.HasCapture() {
          routesToAdd := ancestorRoutes;
        }
        var routesToRemove: RouteSet := map[route.faceId := route];
        add, remove := routesToAdd, routesToRemove;
        ModifyChildrensInheritedRoutes(entry.children, routesToAdd, routesToRemove, entry.name, t);
      } else if route.IsCapture() {
        var routesToAdd: RouteSet := map[];
        if captureWasTurnedOff && |entry.routes| != 0 {
          routesToAdd := ancestorRoutes;
          AddInheritedRoutes(entry, routesToAdd);
          self, w2 := WithoutOwn(routesToAdd, entry.View()), Work();
        }
        add := routesToAdd;
        ModifyChildrensInheritedRoutes(entry.children, routesToAdd, map[], entry.name, t);
      }
    }

    lemma SameAncestors(a: RouteSet, b: RouteSet, t: Table, p: Name)
      requires IsAncestorSet(a, t, p) && IsAncestorSet(b, t, p)
      ensures a == b
    {
      forall f: nat
        ensures Get(a, f) == Get(b, f)
      {
        assert Nearest(t, p, f) == Get(a, f);
      }
      assert forall f :: f in a <==> Get(a, f).Some?;
      assert forall f :: f in b <==> Get(b, f).Some?;
    }

    /** The last route of the name goes: all that the name inherited leaves the FIB. */
    method CreateFibUpdatesForErasedRibEntry(entry: RibEntry)
      requires ListsOk(Work())
      modifies this
      ensures ListsOk(Work()) && batchFaceId == old(batchFaceId)
      ensures forall d: Name, f: nat ::
                CellAt(Work(), d, f) == ErasedEntryCell(entry.View(), entry.name, d, f, old(CellAt(Work(), d, f)))
    {
      ghost var w0 := Work();
      var i := 0;
      while i < |entry.inheritedRoutes|
        invariant i <= |entry.inheritedRoutes|
        invariant RecordsErased(w0, Work(), entry.name, entry.inheritedRoutes[..i])
      {
        var route := entry.inheritedRoutes[i];
        RecordErased(w0, Work(), entry.name, entry.inheritedRoutes[..i], route);
        assert entry.inheritedRoutes[..i + 1] == entry.inheritedRoutes[..i] + [route];
        AddFibUpdate(RemoveUpdate(entry.name, route.faceId));
        i := i + 1;
      }
      assert entry.inheritedRoutes[..i] == entry.inheritedRoutes;
    }

    // ----- one update -----

    /** A new name, a new route of a known name, or a changed route. */
    method ComputeUpdatesForRegistration(update: RibUpdate, ghost t: Table)
      returns (defined: bool, ghost prev: Option<Route>)
      requires Reads(t) && Ordered(rib.names, rib.table) && ListsOk(Work())
      modifies this
      ensures ListsOk(Work()) && batchFaceId == old(batchFaceId)
      ensures FoundInherit(t, update.name, update.route, prev)
      ensures defined <==> RegistrationDefined(t, update.name, update.route, prev)
      ensures defined ==>
                forall d: Name, f: nat ::
                  CellAt(Work(), d, f) == RegisteredCell(t, update.name, update.route, prev, d, f,
                                                         old(CellAt(Work(), d, f)))
    {
      var prefix, route := update.name, update.route;
      defined, prev := true, None;
      if prefix in rib.table {
        var entry := rib.table[prefix];
        InPlaceEntry(t, entry);
        var existing := entry.FindRoute(route);
        if existing == |entry.routes| {
          var willCaptureBeTurnedOn := !entry.HasCapture() && route.IsCapture();
          CreateFibUpdatesForNewRoute(entry, route, willCaptureBeTurnedOn, t);
        } else {
          defined, prev := RegisterAgain(entry, existing, route, t);
        }
      } else {
        var children := FindNewChildren(prefix, t);
        CreateFibUpdatesForNewRibEntry(prefix, route, children, t);
      }
    }

    /** computeUpdatesForRegistration, for the route at a known position: the change is tried on a copy of the entry. */
    method RegisterAgain(entry: RibEntry, i: nat, route: Route, ghost t: Table)
      returns (defined: bool, ghost prev: Option<Route>)
      requires Reads(t) && InPlace(entry) && ListsOk(Work())
      requires i < |entry.routes| && i == Position(entry.routes, route)
      modifies this
      ensures ListsOk(Work()) && batchFaceId == old(batchFaceId)
      ensures var e := InsertIntoEntry(entry.View(), route);
              e.HasFace(route.faceId) && CheapestInherit(e.routes, route.faceId, prev) &&
              (defined <==> UpdateDefined(e, route, entry.routes[i], prev)) &&
              (defined ==>
                 forall d: Name, f: nat ::
                   CellAt(Work(), d, f) ==
                   UpdatedRouteCell(t, e, entry.name, route, entry.routes[i], prev, d, f, old(CellAt(Work(), d, f))))
    {
      var copy := CopyOf(entry, t);
      var changed := copy.routes[i].(flags := route.flags, cost := route.cost, expires := route.expires);
      copy.routes := copy.routes[i := changed];
      FindFaceMeaning(copy.routes, route.faceId);
      assert copy.routes[i].faceId == route.faceId;
      assert copy.View() == InsertIntoEntry(entry.View(), route);
      defined, prev := CreateFibUpdatesForUpdatedRoute(copy, route, entry.routes[i], t);
    }

    method CopyOf(entry: RibEntry, ghost t: Table) returns (temp: RibEntry)
      requires Reads(t) && InPlace(entry)
      ensures fresh(temp) && temp.name == entry.name && temp.View() == entry.View() && InPlace(temp)
    {
      temp := new RibEntry(entry.name);
      temp.children, temp.parent := entry.children, entry.parent;
      temp.routes, temp.inheritedRoutes := entry.routes, entry.inheritedRoutes;
      temp.nRoutesWithCaptureSet := entry.nRoutesWithCaptureSet;
    }

    lemma InPlaceEntry(t: Table, entry: RibEntry)
      requires Reads(t) && entry in rib.table.Values
      ensures InPlace(entry)
    {
      ChildrenOfEntry(t, entry);
      assert entry == rib.table[entry.name];
      assert rib.table[entry.name].parent == ParentIn(rib.table, entry.name);
    }

    /** The entries that a new name would take over: those below it that have the parent it would have. */
    method FindNewChildren(prefix: Name, ghost t: Table) returns (children: seq<RibEntry>)
      requires Reads(t) && Ordered(rib.names, rib.table) && prefix !in rib.table
      ensures ListsChildren(children, prefix)
    {
      var parent := rib.FindParent(prefix);
      var descendants := rib.FindDescendantsForNonInsertedName(prefix);
      rib.ExtensionsInTable(prefix);
      ExtensionsDistinct(rib.names, prefix);
      ghost var ext := Extensions(rib.names, prefix);
      children := [];
      var i := 0;
      while i < |descendants|
        invariant i <= |descendants| && NoDuplicates(children)
        invariant forall c | c in children ::
                  c in rib.table.Values && c.name in ext[..i] && IsChild(rib.table.Keys, prefix, c.name)
        invariant forall n | n in ext[..i] && IsChild(rib.table.Keys, prefix, n) ::
                  n in rib.table && rib.table[n] in children
      {
        ghost var n := ext[i];
        assert n in ext && n != prefix && ext[..i + 1] == ext[..i] + [n] && n !in ext[..i];
        assert rib.table[n].parent == ParentIn(rib.table, n);
        SameParent(rib.table, prefix, n);
        ChildrenOfAbsentName(rib.table.Keys, prefix, n);
        if descendants[i].parent == parent {
          children := children + [descendants[i]];
        }
        i := i + 1;
      }
      assert ext[..i] == ext;
    }

    /** The copy of an entry that computeUpdatesForUnregistration erases the route from. */
    method CopyWithoutRoute(entry: RibEntry, i: nat, ghost t: Table) returns (temp: RibEntry)
      requires Reads(t) && InPlace(entry) && i < |entry.routes|
      ensures fresh(temp) && temp.name == entry.name && temp.View() == EraseFromEntry(entry.View(), i)
      ensures InPlace(temp)
    {
      temp := CopyOf(entry, t);
      temp.EraseRouteAt(i);
    }

    method ComputeUpdatesForUnregistration(update: RibUpdate, ghost t: Table) returns (ghost next: Option<Route>)
      requires Reads(t) && ListsOk(Work())
      modifies this
      ensures ListsOk(Work()) && batchFaceId == old(batchFaceId)
      ensures var p, r := update.name, update.route;
              if p in t && Position(t[p].routes, r) < |t[p].routes| then
                (next.None? <==> |OnFace(t[p].routes, r.faceId)| < 2) &&
                (next.Some? ==> SecondByCost(OnFace(t[p].routes, r.faceId), next.value)) &&
                forall d: Name, f: nat ::
                  CellAt(Work(), d, f) ==
                  UnregisteredCell(t, p, Position(t[p].routes, r), next, d, f, old(CellAt(Work(), d, f)))
              else Work() == old(Work())
    {
      var prefix, route := update.name, update.route;
      next := None;
      if prefix in rib.table {
        var entry := rib.table[prefix];
        InPlaceEntry(t, entry);
        var hadCapture := entry.HasCapture();
        var existing := entry.FindRoute(route);
        if existing != |entry.routes| {
          next := UnregisterRoute(entry, existing, hadCapture, t);
        }
      }
    }

    /** The second cheapest route on the face, if there is one, is treated as a new route of the copy. */
    method InstallNext(entry: RibEntry, temp: RibEntry, faceId: nat, ghost t: Table) returns (ghost next: Option<Route>)
      requires Reads(t) && InPlace(temp) && ListsOk(Work())
      modifies this
      ensures ListsOk(Work()) && batchFaceId == old(batchFaceId)
      ensures next.None? <==> |OnFace(entry.routes, faceId)| < 2
      ensures next.Some? ==> SecondByCost(OnFace(entry.routes, faceId), next.value)
      ensures if next.None? then Work() == old(Work())
              else forall d: Name, f: nat ::
                CellAt(Work(), d, f) ==
                NewRouteCell(t, temp.View(), temp.name, next.value, false, d, f, old(CellAt(Work(), d, f)))
    {
      var second := SecondLowest(entry.routes, faceId);
      next := second;
      if second.Some? {
        CreateFibUpdatesForNewRoute(temp, second.value, false, t);
      }
    }

    method UnregisterRoute(entry: RibEntry, existing: nat, hadCapture: bool, ghost t: Table)
      returns (ghost next: Option<Route>)
      requires Reads(t) && InPlace(entry) && entry.name in t && t[entry.name] == entry.View() && ListsOk(Work())
      requires existing < |entry.routes| && hadCapture == entry.HasCapture()
      modifies this
      ensures ListsOk(Work()) && batchFaceId == old(batchFaceId)
      ensures next.None? <==> |OnFace(entry.routes, entry.routes[existing].faceId)| < 2
      ensures next.Some? ==> SecondByCost(OnFace(entry.routes, entry.routes[existing].faceId), next.value)
      ensures forall d: Name, f: nat ::
                CellAt(Work(), d, f) == UnregisteredCell(t, entry.name, existing, next, d, f, old(CellAt(Work(), d, f)))
    {
      ghost var w0 := Work();
      var temp := CopyWithoutRoute(entry, existing, t);
      var captureWasTurnedOff := hadCapture && !temp.HasCapture();
      CreateFibUpdatesForErasedRoute(temp, entry.routes[existing], captureWasTurnedOff, t);
      ghost var w1 := Work();
      next := InstallNext(entry, temp, entry.routes[existing].faceId, t);
      ghost var w2 := Work();
      if |entry.routes| == 1 {
        CreateFibUpdatesForErasedRibEntry(entry);
      }
      UnregisteredComposed(w0, w1, w2, Work(), t, entry.name, existing, next);
    }

    // ----- one batch -----

    /** Every list starts empty, and the batch has the face of its one update. */
    method StartBatch(update: RibUpdate)
      modifies this
      ensures ListsOk(Work()) && batchFaceId == update.route.faceId
      ensures forall d: Name, f: nat :: CellAt(Work(), d, f) == NOTHING
    {
      batchFaceId := update.route.faceId;
      updatesForBatchFaceId, updatesForNonBatchFaceId, inheritedRoutes := [], [], [];
    }

    /**
     * computeAndSendFibUpdates for a registration, up to the sending: for the changes that the agreement theorems
     * are about, the lists are what those theorems start from.
     */
    method ComputeRegistrationBatch(update: RibUpdate, ghost t: Table)
      returns (defined: bool, ghost prev: Option<Route>)
      requires Reads(t) && Ordered(rib.names, rib.table) && update.action == Register
      modifies this
      ensures ListsOk(Work()) && batchFaceId == update.route.faceId
      ensures FoundInherit(t, update.name, update.route, prev)
      ensures defined <==> RegistrationDefined(t, update.name, update.route, prev)
      ensures defined ==>
                forall d: Name, f: nat ::
                  CellAt(Work(), d, f) == RegisteredCell(t, update.name, update.route, prev, d, f, NOTHING)
      ensures var ch := Registration(t, update.name, update.route); Fits(ch, t) ==> defined && Computed(ch, t, Work())
      ensures FitsFlip(t, update.name, update.route) ==>
                defined && FlipComputed(t, update.name, update.route, Work())
    {
      StartBatch(update);
      defined, prev := ComputeUpdatesForRegistration(update, t);
      if Fits(Registration(t, update.name, update.route), t) {
        RegistrationFits(t, update.name, update.route, prev);
      }
      if FitsFlip(t, update.name, update.route) {
        FlipDefined(t, update.name, update.route, prev);
      }
    }

    /** computeAndSendFibUpdates for an unregistration; updates for a destroyed face are not sent. */
    method ComputeUnregistrationBatch(update: RibUpdate, ghost t: Table) returns (ghost next: Option<Route>)
      requires Reads(t) && update.action != Register
      modifies this
      ensures ListsOk(Work()) && batchFaceId == update.route.faceId
      ensures FoundOk(t, update, next) && RecordsComputed(t, update, next, inheritedRoutes)
      ensures update.action == Unregister ==>
                forall d: Name, f: nat :: CellAt(Work(), d, f) == UpdateCell(t, update, next, d, f)
      ensures update.name in t ==>
                var ch := DropRoute(update.name, Position(t[update.name].routes, update.route));
                Fits(ch, t) ==>
                  if update.action == Unregister then Computed(ch, t, Work())
                  else ComputedExcept(ch, t, Work(), batchFaceId)
    {
      StartBatch(update);
      next := ComputeUpdatesForUnregistration(update, t);
      if !(update.name in t && Position(t[update.name].routes, update.route) < |t[update.name].routes|) {
        next := None;
      } else {
        OnFaceLength(t[update.name].routes, update.route.faceId);
      }
      ghost var w := Work();
      assert forall d: Name, f: nat :: CellAt(w, d, f) == UpdateCell(t, update, next, d, f);
      RecordsOfCells(w, t, update, next);
      if update.action == RemoveFace {
        updatesForBatchFaceId := [];
      }
      if update.name in t {
        ghost var ch := DropRoute(update.name, Position(t[update.name].routes, update.route));
        if Fits(ch, t) {
          OnFaceOfSingle(t[update.name].routes, update.route.faceId);
          assert Computed(ch, t, w);
          BatchDropped(ch, t, w);
        }
      }
    }

    /**
     * computeAndSendFibUpdates up to the sending: what was recorded can be applied to the RIB after the update, unless
     * the update erases a record twice.
     */
    method ComputeBatch(update: RibUpdate, ghost t: Table) returns (defined: bool, ghost found: Option<Route>)
      requires Reads(t) && Ordered(rib.names, rib.table)
      modifies this
      ensures ListsOk(Work()) && batchFaceId == update.route.faceId
      ensures update.action != Register ==> defined
      ensures update.action == Register ==>
                FoundInherit(t, update.name, update.route, found) &&
                (defined <==> RegistrationDefined(t, update.name, update.route, found))
      ensures defined ==> (Applicable(TableUpdated(t, update), inheritedRoutes) <==> !ErasesTwice(t, update))
    {
      if update.action == Register {
        defined, found := ComputeRegistrationBatch(update, t);
        RecordsOfRegistration(defined, Work(), t, update, found);
      } else {
        defined := true;
        found := ComputeUnregistrationBatch(update, t);
      }
      if defined {
        RecordsApplicable(t, update, found, inheritedRoutes);
      }
    }
  }

  function Firsts(names: seq<Name>, i: nat): set<Name>
    requires i <= |names|
  {
    set n | n in names[..i]
  }

  lemma FirstsNext(names: seq<Name>, i: nat)
    requires i < |names| && forall j, k :: 0 <= j < k < |names| ==> names[j] != names[k]
    ensures names[i] !in Firsts(names, i) && Firsts(names, i + 1) == Firsts(names, i) + {names[i]}
    ensures names[i] in Firsts(names, |names|) && Firsts(names, i) <= Firsts(names, |names|)
  {
    assert names[..i + 1] == names[..i] + [names[i]] && names[..|names|] == names;
  }

  lemma {:induction false} OnFaceLength(routes: seq<Route>, f: nat)
    ensures |OnFace(routes, f)| <= |routes|
  {
    if |routes| > 0 {
      OnFaceLength(routes[1..], f);
    }
  }

  lemma RecordsOfCells(w: Lists, t: Table, u: RibUpdate, found: Option<Route>)
    requires forall d: Name, f: nat :: CellAt(w, d, f) == UpdateCell(t, u, found, d, f)
    ensures RecordsComputed(t, u, found, w.records)
  {
  }

  lemma RecordsOfRegistration(defined: bool, w: Lists, t: Table, update: RibUpdate, found: Option<Route>)
    requires update.action == Register
    requires defined ==> forall d: Name, f: nat ::
             CellAt(w, d, f) == RegisteredCell(t, update.name, update.route, found, d, f, NOTHING)
    ensures defined ==> RecordsComputed(t, update, found, w.records)
  {
  }

  /**
   * One update from the queue to the RIB: the lists are computed from the RIB as it is, and when the FIB has accepted
   * them the RIB changes. The asserts of modifyInheritedRoutes hold and every erased record exists. False stands for
   * the null dereference in createFibUpdatesForUpdatedRoute.
   */
  method ApplyUpdate(rib: Rib, updater: FibUpdater, update: RibUpdate)
    returns (defined: bool, ghost found: Option<Route>)
    requires rib.Valid() && updater.rib == rib && !ErasesTwice(rib.State(), update)
    modifies rib, rib.table.Values, updater
    ensures rib.Valid()
    ensures defined <==> update.action == Register ==>
            RegistrationDefined(old(rib.State()), update.name, update.route, found)
    ensures update.action == Register ==> FoundInherit(old(rib.State()), update.name, update.route, found)
    ensures rib.State() == if defined then ApplyRecords(TableUpdated(old(rib.State()), update), updater.inheritedRoutes)
                           else old(rib.State())
  {
    defined, found := updater.ComputeBatch(update, rib.State());
    if defined {
      rib.OnFibUpdateSuccess(update, updater.inheritedRoutes);
    }
  }
}
