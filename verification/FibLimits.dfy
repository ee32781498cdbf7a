/** What traverseSubTree emits, and concrete tables and histories at which the code leaves its own definition. */
module FibLimits {
  import opened Wrappers
  import opened Components
  import opened Names
  import opened Routes
  import opened RibModel
  import opened RibTable
  import opened FibUpdates
  import opened FibWalk
  import opened FibAgreement
  import opened FibFlips
  import opened FibRecords

  // ----- what the walk emits -----

  /** Every entry from p down to d lets an inherited route on face f through. */
  predicate LetsThrough(t: Table, p: Name, d: Name, f: nat) {
    forall j :: |p| <= j <= |d| && d[..j] in t ==> !t[d[..j]].HasCapture() && !t[d[..j]].HasChildInherit(f)
  }

  /** At an entry that the walk reaches. */
  lemma StepEmits(e: Entry, d: Name, f: nat, add: RouteSet, remove: RouteSet)
    requires WellKeyed(add) && WellKeyed(remove)
    ensures var c := StepCell(e, d, f, add, remove, NOTHING);
            var added, removed := f in add && !e.HasFace(f), f in remove && e.HasRecord(f);
            c.records == (if removed then [RibUpdate(Unregister, d, remove[f])] else []) +
                         (if added then [RibUpdate(Register, d, add[f])] else []) &&
            c.pending == if added then Some(AddUpdate(d, f, add[f].cost))
                         else if removed then Some(RemoveUpdate(d, f)) else None
  {
  }

  /** Started with nothing recorded for d and f, the walk adds and removes exactly what its documentation says. */
  lemma SubtreeEmits(before: Lists, after: Lists, t: Table, p: Name, add: RouteSet, remove: RouteSet, d: Name, f: nat)
    requires SubtreeDone(before, after, t, p, add, remove) && CellAt(before, d, f) == NOTHING
    requires WellKeyed(add) && WellKeyed(remove)
    ensures var reached, c := d in t && p <= d && LetsThrough(t, p, d, f), CellAt(after, d, f);
            var added, removed := reached && f in add && !t[d].HasFace(f), reached && f in remove && t[d].HasRecord(f);
            c.records == (if removed then [RibUpdate(Unregister, d, remove[f])] else []) +
                         (if added then [RibUpdate(Register, d, add[f])] else []) &&
            c.pending == if added then Some(AddUpdate(d, f, add[f].cost))
                         else if removed then Some(RemoveUpdate(d, f)) else None
  {
    if p <= d {
      assert d[..|d|] == d;
      assert LetsThrough(t, p, d, f) && d in t <==> Reached(t, d, |p|, f);
      if Reached(t, d, |p|, f) {
        StepEmits(t[d], d, f, add, remove);
      }
    }
  }

  // ----- examples -----

  const A := Component(NAME_COMPONENT, [97])
  const B := Component(NAME_COMPONENT, [98])

  function Plain(faceId: nat, flags: nat, cost: nat): Route {
    Route(faceId, 0, flags, cost, 0)
  }

  /** "/" offers face 1, "/A" captures with its only route, "/A/B" has a route on face 3 only. */
  function CapturedTable(): Table {
    map[[] := Entry([Plain(1, 1, 10)], [], 0),
        [A] := Entry([Plain(2, 2, 20)], [], 1),
        [A, B] := Entry([Plain(3, 0, 30)], [], 0)]
  }

  lemma CaptureExample()
    ensures var t := CapturedTable();
            Fits(DropRoute([A], 0), t) && RecordsMatch(t) && DropGoesWrong(t, [A], 0, [A, B], 1) &&
            Wanted(t - {[A]}, [A, B], 1) == Some(10)
  {
    var t, n := CapturedTable(), [A, B];
    assert n[..2] == n && n[..1] == [A] && n[..0] == [] && [A][..0] == [];
    assert [A] < n && |t[[A]].routes| == 1;
    assert CaptureCount([Plain(2, 2, 20)]) == 1;
    assert ScanUp(t, n, 0, 0, 1) == Through;
    forall m, f: nat | m in t
      ensures !Inherits(t, m, f) && !t[m].HasRecord(f)
    {
      assert m == n ==> FindInherit([Plain(2, 2, 20)], f) == None && t[m[..1]].HasCapture();
    }
  }

  /** "/" and "/A" both offer face 1; "/A/B" inherits the cheaper route of "/A". */
  function SharedFaceTable(more: seq<Route>): Table {
    map[[] := Entry([Plain(1, 1, 10)], [], 0),
        [A] := Entry([Plain(1, 1, 5)] + more, [], 0),
        [A, B] := Entry([Plain(3, 0, 30)], [Plain(1, 1, 5)] + more, 0)]
  }

  lemma SharedFaceMatches()
    ensures RecordsMatch(SharedFaceTable([])) && Dependent(SharedFaceTable([]), [A], [A, B], 1)
  {
    var t, n := SharedFaceTable([]), [A, B];
    assert n[..2] == n && n[..1] == [A] && n[..0] == [] && [A][..0] == [];
    assert [A] < n && [Plain(1, 1, 5)] + [] == [Plain(1, 1, 5)];
    forall m, f: nat | m in t
      ensures t[m].HasRecord(f) <==> Inherits(t, m, f)
    {
      assert FindFace([Plain(1, 1, 5)], f).Some? <==> f == 1;
      assert FindInherit([Plain(1, 1, 5)], f).Some? <==> f == 1;
      assert FindInherit([Plain(1, 1, 10)], f).Some? <==> f == 1;
      assert m == [A] ==> Nearest(t, m, f).Some? ==> f == 1;
    }
  }

  /** A capture route for "/A" on a new face takes its own route on face 1 away from "/A/B". */
  lemma CaptureOnExample()
    ensures var t, r := SharedFaceTable([]), Plain(2, 2, 20);
            Fits(AddFace([A], r), t) && RecordsMatch(t) &&
            !t[[A]].HasCapture() && r.IsCapture() && OwnRouteAmongAncestors(t, [A], [A, B], 1) &&
            Wanted(Inserted(t, [A], r), [A, B], 1) == Some(5)
  {
    var t, r := SharedFaceTable([]), Plain(2, 2, 20);
    SharedFaceMatches();
    assert [A, B][..1] == [A] && [A][..0] == [] && [Plain(1, 1, 5)] + [] == [Plain(1, 1, 5)];
    assert [Plain(1, 1, 5)][..0] == [] && CaptureCount([Plain(1, 1, 5)]) == 0;
    assert Position([Plain(1, 1, 5)], r) == 1 && Inserted(t, [A], r)[[A]].routes == [Plain(1, 1, 5), r];
    assert Nearest(t, [A], 1) == Some(Plain(1, 1, 10));
    assert Nearest(Inserted(t, [A], r), [A, B], 1) == Some(Plain(1, 1, 5)) && Inherits(Inserted(t, [A], r), [A, B], 1);
  }

  /** The route of "/A" changes its cost and another flag at once, and "/A/B" keeps the old cost. */
  lemma CostAndFlagExample()
    ensures var t, r := SharedFaceTable([]), Plain(1, 5, 8);
            Fits(ChangeRoute([A], r), t) && RecordsMatch(t) && ChangeGoesWrong(t, [A], r, [A, B], 1) &&
            Wanted(t, [A, B], 1) == Some(5) && Wanted(Inserted(t, [A], r), [A, B], 1) == Some(8)
  {
    var t, r := SharedFaceTable([]), Plain(1, 5, 8);
    SharedFaceMatches();
    assert [A, B][..1] == [A] && [Plain(1, 1, 5)] + [] == [Plain(1, 1, 5)];
    assert [Plain(1, 1, 5)][..0] == [] && CaptureCount([Plain(1, 1, 5)]) == 0;
    ChangedFace(t[[A]], r, 1);
    var u := Inserted(t, [A], r);
    assert u[[A]].routes == [r];
    assert Nearest(t, [A, B], 1) == Some(Plain(1, 1, 5)) && Nearest(u, [A, B], 1) == Some(r);
    assert Inherits(t, [A, B], 1) && Inherits(u, [A, B], 1);
    assert ChangeGoesWrong(t, [A], r, [A, B], 1);
  }

  /** The route of "/A" gains the capture flag, and "/A/B" loses it although "/A" still hands it down. */
  lemma FlipExample()
    ensures var t, r := SharedFaceTable([]), Plain(1, 3, 5);
            FitsFlip(t, [A], r) && RecordsMatch(t) && FlipGoesWrong(t, [A], r, [A, B], 1) &&
            Wanted(Recounted(t, [A], r), [A, B], 1) == Some(5)
  {
    var t, r := SharedFaceTable([]), Plain(1, 3, 5);
    SharedFaceMatches();
    assert [A, B][..1] == [A] && [A][..0] == [] && [Plain(1, 1, 5)] + [] == [Plain(1, 1, 5)];
    assert [Plain(1, 1, 5)][..0] == [] && CaptureCount([Plain(1, 1, 5)]) == 0;
    FlipAtP(t, [A], r, 1);
    var u := Recounted(t, [A], r);
    assert Nearest(u, [A, B], 1) == Some(r) && Inherits(u, [A, B], 1);
    assert Nearest(t, [A], 1) == Some(Plain(1, 1, 10));
  }

  /** Erasing the route of "/A" on face 2 gives "/A/B" the route of "/" on face 1 instead of that of "/A". */
  lemma GivenBackExample()
    ensures var t := SharedFaceTable([Plain(2, 1, 20)]);
            Fits(DropRoute([A], 1), t) && RecordsMatch(t) && DropGoesWrong(t, [A], 1, [A, B], 1) &&
            Wanted(Erased(t, [A], Plain(2, 1, 20)), [A, B], 1) == Some(5)
  {
    var t, n := SharedFaceTable([Plain(2, 1, 20)]), [A, B];
    assert n[..2] == n && n[..1] == [A] && n[..0] == [] && [A][..0] == [];
    var routes := [Plain(1, 1, 5), Plain(2, 1, 20)];
    assert [A] < n && [Plain(1, 1, 5)] + [Plain(2, 1, 20)] == routes;
    assert routes[1..] == [Plain(2, 1, 20)] && routes[..1] + routes[2..] == [Plain(1, 1, 5)];
    assert CaptureCount(routes[..1]) == 0 && CaptureCount(routes) == 0;
    assert Position(routes, Plain(2, 1, 20)) == 1;
    forall m, f: nat | m in t
      ensures t[m].HasRecord(f) <==> Inherits(t, m, f)
    {
      FindFaceMeaning(routes, f);
      FindInheritMeaning(routes, f);
      assert routes[0].faceId == 1 && routes[1].faceId == 2;
      assert FindInherit(routes, f).Some? <==> f == 1 || f == 2;
      assert FindFace(routes, f).Some? <==> f == 1 || f == 2;
      assert FindInherit([Plain(1, 1, 10)], f).Some? <==> f == 1;
    }
  }

  /** "/A" has a child-inherit route on face 1 and a capture route on face 2; face 1 is offered by "/" too. */
  function UncoveredTable(): Table {
    map[[] := Entry([Plain(1, 1, 10)], [], 0),
        [A] := Entry([Plain(1, 1, 5), Plain(2, 2, 20)], [], 1),
        [A, B] := Entry([Plain(3, 0, 30)], [Plain(1, 1, 5)], 0)]
  }

  /** "/A" stops handing down its route on face 1, and "/A/B" is given the route of "/" past the capture. */
  lemma UncoveredExample()
    ensures var t, r := UncoveredTable(), Plain(1, 0, 5);
            Fits(ChangeRoute([A], r), t) && RecordsMatch(t) && ChangeGoesWrong(t, [A], r, [A, B], 1) &&
            Wanted(Inserted(t, [A], r), [A, B], 1) == None
  {
    var t, n, r := UncoveredTable(), [A, B], Plain(1, 0, 5);
    var routes := [Plain(1, 1, 5), Plain(2, 2, 20)];
    assert n[..2] == n && n[..1] == [A] && n[..0] == [] && [A][..0] == [] && [A] < n;
    assert routes[..1] == [Plain(1, 1, 5)] && CaptureCount(routes[..1]) == 0 && CaptureCount(routes) == 1;
    forall m, f: nat | m in t
      ensures t[m].HasRecord(f) <==> Inherits(t, m, f)
    {
      FindInheritMeaning(routes, f);
      assert routes[0].IsChildInherit() && !routes[1].IsChildInherit();
      assert m == [A] ==> !Inherits(t, m, f);
      assert FindInherit(routes, f).Some? <==> f == 1;
      assert FindFace([Plain(1, 1, 5)], f).Some? <==> f == 1;
      assert FindFace([Plain(3, 0, 30)], f).Some? <==> f == 3;
      assert m == n ==> (Nearest(t, n, f).Some? <==> f == 1);
    }
    ChangedFace(t[[A]], r, 1);
    assert Inserted(t, [A], r)[[A]].HasCapture();
  }

  /** Two routes on one face, neither child-inherit: raising the cheaper one above the other dereferences null. */
  lemma NullExample(t: Table, prev: Option<Route>)
    requires [A] in t && t[[A]].routes == [Route(1, 0, 0, 5, 0), Route(1, 255, 0, 10, 0)]
    requires FoundInherit(t, [A], Route(1, 0, 0, 20, 0), prev)
    ensures !RegistrationDefined(t, [A], Route(1, 0, 0, 20, 0), prev)
  {
    var r := Route(1, 0, 0, 20, 0);
    var after := InsertIntoEntry(t[[A]], r).routes;
    assert after == [r, Route(1, 255, 0, 10, 0)];
    assert after[1..] == [Route(1, 255, 0, 10, 0)] && LowestCost(after[1..], 1, false) == Some(10);
    FindInheritMeaning(after, 1);
  }

  /** An own route over a stale record, and both flags flipped at once: the second removal finds no record. */
  lemma DoubleFlipExample()
    ensures var t := map[[] := Entry([Plain(1, 1, 10)], [], 0),
                         [A] := Entry([Plain(1, 1, 5)], [], 0),
                         [A, B] := Entry([Plain(1, 0, 30)], [Plain(1, 1, 5)], 0)];
            var u := RibUpdate(Register, [A], Plain(1, 2, 5));
            ErasesTwice(t, u) &&
            forall found, records :: RecordsComputed(t, u, found, records) ==> !Applicable(TableUpdated(t, u), records)
  {
    var t := map[[] := Entry([Plain(1, 1, 10)], [], 0),
                 [A] := Entry([Plain(1, 1, 5)], [], 0),
                 [A, B] := Entry([Plain(1, 0, 30)], [Plain(1, 1, 5)], 0)];
    var u := RibUpdate(Register, [A], Plain(1, 2, 5));
    assert [A] < [A, B] && [A][..0] == [] && [A, B] in t;
    assert ErasesTwiceAt(t, u, [A, B], 1);
    forall found, records | RecordsComputed(t, u, found, records)
      ensures !Applicable(TableUpdated(t, u), records)
    {
      RecordsApplicable(t, u, found, records);
    }
  }
}
