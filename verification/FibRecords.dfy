/** The precalculated changes of inherited routes: they always apply, and when they keep matching the definition. */
module FibRecords {
  import opened Wrappers
  import opened Names
  import opened Routes
  import opened RibModel
  import opened FibUpdates
  import opened FibWalk
  import opened FibAgreement

  function Count(records: seq<Route>, f: nat): nat {
    if |records| == 0 then 0 else (if records[0].faceId == f then 1 else 0) + Count(records[1..], f)
  }

  function After(c: nat, action: RibAction): nat {
    match action
    case Register => c + 1
    case Unregister => if c > 0 then c - 1 else 0
    case RemoveFace => c
  }

  /** The number of records for one name and face after changes of that name and face. */
  function Run(c: nat, ops: seq<RibUpdate>): nat
    decreases |ops|
  {
    if |ops| == 0 then c else Run(After(c, ops[0].action), ops[1..])
  }

  /** Every removal finds a record. */
  predicate RunOk(c: nat, ops: seq<RibUpdate>)
    decreases |ops|
  {
    |ops| == 0 || ((ops[0].action == Unregister ==> c > 0) && RunOk(After(c, ops[0].action), ops[1..]))
  }

  /** At most one removal, and only of an existing record; the rest are additions. */
  predicate SimpleOps(ops: seq<RibUpdate>, has: bool) {
    (forall i :: 0 <= i < |ops| ==> ops[i].action == Register || (ops[i].action == Unregister && has)) &&
    forall i, j :: 0 <= i < j < |ops| ==> ops[i].action == Register || ops[j].action == Register
  }

  lemma {:induction false} SimpleRunOk(c: nat, ops: seq<RibUpdate>)
    requires SimpleOps(ops, c > 0)
    ensures RunOk(c, ops)
    decreases |ops|
  {
    if |ops| > 0 {
      SimpleRunOk(After(c, ops[0].action), ops[1..]);
    }
  }

  lemma {:induction false} CountMeaning(records: seq<Route>, f: nat)
    ensures FindFace(records, f).Some? <==> Count(records, f) > 0
  {
    if |records| > 0 {
      CountMeaning(records[1..], f);
    }
  }

  lemma {:induction false} CountAppend(records: seq<Route>, r: Route, f: nat)
    ensures Count(records + [r], f) == Count(records, f) + if r.faceId == f then 1 else 0
  {
    if |records| > 0 {
      assert (records + [r])[1..] == records[1..] + [r];
      CountAppend(records[1..], r, f);
    }
  }

  lemma {:induction false} CountRemoveFirst(records: seq<Route>, g: nat, f: nat)
    ensures Count(RemoveFirst(records, g), f) ==
            if f == g && Count(records, f) > 0 then Count(records, f) - 1 else Count(records, f)
  {
    if |records| > 0 && records[0].faceId != g {
      CountRemoveFirst(records[1..], g, f);
      assert RemoveFirst(records, g)[1..] == RemoveFirst(records[1..], g);
    }
  }

  lemma {:induction false} RecordsForFront(us: seq<RibUpdate>, n: Name, f: nat)
    requires |us| > 0
    ensures RecordsFor(us, n, f) ==
            (if us[0].name == n && us[0].route.faceId == f then [us[0]] else []) + RecordsFor(us[1..], n, f)
  {
    if |us| > 1 {
      var k := |us| - 1;
      RecordsForFront(us[..k], n, f);
      assert us[..k][1..] == us[1..][..k - 1] && us[1..][k - 1] == us[k];
    }
  }

  function CountAt(t: Table, n: Name, f: nat): nat {
    if n in t then Count(t[n].inherited, f) else 0
  }

  lemma ApplyRecordAt(t: Table, u: RibUpdate, n: Name, f: nat)
    requires u.name in t && (u.action == Unregister ==> CountAt(t, u.name, u.route.faceId) > 0)
    ensures CountAt(ApplyRecord(t, u), n, f) ==
            if u.name == n && u.route.faceId == f then After(CountAt(t, n, f), u.action) else CountAt(t, n, f)
  {
    CountAppend(t[u.name].inherited, u.route, f);
    CountRemoveFirst(t[u.name].inherited, u.route.faceId, f);
  }

  /** The records change, and nothing else does. */
  ghost predicate RecordsApplied(t: Table, us: seq<RibUpdate>) {
    ApplyRecords(t, us).Keys == t.Keys && forall n :: n in t ==> SameSources(t[n], ApplyRecords(t, us)[n])
  }

  /** Changes that are fine for every name and face on its own are fine in their order, and change no routes. */
  lemma {:induction false} RecordsApply(t: Table, us: seq<RibUpdate>)
    requires forall u :: u in us ==> u.name in t
    requires forall n: Name, f: nat :: RunOk(CountAt(t, n, f), RecordsFor(us, n, f))
    ensures Applicable(t, us)
    ensures RecordsApplied(t, us)
    ensures forall n: Name, f: nat :: CountAt(ApplyRecords(t, us), n, f) == Run(CountAt(t, n, f), RecordsFor(us, n, f))
    decreases |us|
  {
    if |us| > 0 {
      var u, rest := us[0], us[1..];
      var t1 := ApplyRecord(t, u);
      CountMeaning(t[u.name].inherited, u.route.faceId);
      RecordsForFront(us, u.name, u.route.faceId);
      assert RunOk(CountAt(t, u.name, u.route.faceId), RecordsFor(us, u.name, u.route.faceId));
      forall n: Name, f: nat
        ensures RunOk(CountAt(t1, n, f), RecordsFor(rest, n, f))
        ensures Run(CountAt(t1, n, f), RecordsFor(rest, n, f)) == Run(CountAt(t, n, f), RecordsFor(us, n, f))
      {
        RecordsForFront(us, n, f);
        ApplyRecordAt(t, u, n, f);
        assert RunOk(CountAt(t, n, f), RecordsFor(us, n, f));
        assert ([u] + RecordsFor(rest, n, f))[1..] == RecordsFor(rest, n, f) == [] + RecordsFor(rest, n, f);
      }
      RecordsApply(t1, rest);
    }
  }

  /** Changes that apply in their order are fine for every name and face on its own. */
  lemma {:induction false} AppliedRunOk(t: Table, us: seq<RibUpdate>, n: Name, f: nat)
    requires Applicable(t, us)
    ensures RunOk(CountAt(t, n, f), RecordsFor(us, n, f))
    decreases |us|
  {
    if |us| > 0 {
      var u, rest := us[0], us[1..];
      CountMeaning(t[u.name].inherited, u.route.faceId);
      RecordsForFront(us, n, f);
      ApplyRecordAt(t, u, n, f);
      AppliedRunOk(ApplyRecord(t, u), rest, n, f);
      assert ([u] + RecordsFor(rest, n, f))[1..] == RecordsFor(rest, n, f) == [] + RecordsFor(rest, n, f);
    }
  }

  lemma BelowOps(t: Table, p: Name, add: Option<Route>, remove: Option<Route>, d: Name, f: nat, c: Cell)
    ensures var c' := BelowCell(t, p, add, remove, d, f, c);
            d == p || c.records == [] ==>
              (if d == p then c' == c else |c'.records| > 0 ==> d in t) &&
              (d != p ==> SimpleOps(c'.records, d in t && t[d].HasRecord(f)))
  {
  }

  // ----- any update -----

  /** What an update computes at d and f; found is the further route that the computation looks up. */
  function UpdateCell(t: Table, u: RibUpdate, found: Option<Route>, d: Name, f: nat): Cell {
    var p, r := u.name, u.route;
    if u.action == Register then RegisteredCell(t, p, r, found, d, f, NOTHING)
    else if p in t && Position(t[p].routes, r) < |t[p].routes| then
      UnregisteredCell(t, p, Position(t[p].routes, r), found, d, f, NOTHING)
    else NOTHING
  }

  /** A known route that loses child-inherit and gains capture at once. */
  predicate DoubleFlip(t: Table, u: RibUpdate) {
    u.action == Register && u.name in t &&
    var i := Position(t[u.name].routes, u.route);
    i < |t[u.name].routes| && t[u.name].routes[i].IsChildInherit() && !t[u.name].routes[i].IsCapture() &&
    !u.route.IsChildInherit() && u.route.IsCapture()
  }

  /**
   * The walk for child-inherit and the walk for capture both take the ancestors' route from d, which has a single
   * record of it, and an own route on the face keeps the first walk from adding one.
   */
  predicate ErasesTwiceAt(t: Table, u: RibUpdate, d: Name, f: nat) {
    DoubleFlip(t, u) && f == u.route.faceId && u.name < d && Reached(t, d, |u.name| + 1, f) && t[d].HasFace(f) &&
    Count(t[d].inherited, f) == 1 && Nearest(t, u.name, f).Some?
  }

  predicate ErasesTwice(t: Table, u: RibUpdate) {
    exists d :: d in t && ErasesTwiceAt(t, u, d, u.route.faceId)
  }

  /** A removal looks up a second route only if there is one. */
  predicate FoundOk(t: Table, u: RibUpdate, found: Option<Route>) {
    u.action != Register && u.name in t && found.Some? ==> |t[u.name].routes| > 1
  }

  /** What a computation records for one name and face is fine for the table after the update. */
  lemma UpdateOps(t: Table, u: RibUpdate, found: Option<Route>, d: Name, f: nat)
    requires !DoubleFlip(t, u) && FoundOk(t, u, found)
    ensures var ops := UpdateCell(t, u, found, d, f).records;
            SimpleOps(ops, d in t && t[d].HasRecord(f)) &&
            (|ops| > 0 ==> d in t || (u.action == Register && d == u.name)) &&
            (|ops| > 0 && u.action != Register && d == u.name ==> |t[d].routes| > 1)
  {
    var p, r := u.name, u.route;
    if u.action == Register {
      if p !in t {
        NewNameOps(t, p, r, d, f);
      } else if Position(t[p].routes, r) == |t[p].routes| {
        NewRouteOps(t, t[p], p, r, !t[p].HasCapture() && r.IsCapture(), d, f);
      } else {
        ChangedOps(t, p, r, found, d, f);
      }
    } else if p in t && Position(t[p].routes, r) < |t[p].routes| {
      DropOps(t, p, Position(t[p].routes, r), found, d, f);
    }
  }

  lemma NewNameOps(t: Table, p: Name, r: Route, d: Name, f: nat)
    requires p !in t
    ensures var ops := NewEntryCell(t, p, r, d, f, NOTHING).records;
            SimpleOps(ops, d in t && t[d].HasRecord(f)) && (|ops| > 0 ==> d in t || d == p)
  {
    var anc := Nearest(t, p, f);
    BelowOps(t, p, AddedBelow(r, anc, f), if r.IsCapture() then anc else None, d, f,
             InheritCell(p, if r.IsCapture() || f == r.faceId then None else anc, d, f,
                         OwnCell(AddUpdate(p, r.faceId, r.cost), d, f, NOTHING)));
  }

  lemma NewRouteOps(t: Table, e: Entry, p: Name, r: Route, on: bool, d: Name, f: nat)
    requires p in t && e.inherited == t[p].inherited
    ensures var ops := NewRouteCell(t, e, p, r, on, d, f, NOTHING).records;
            SimpleOps(ops, d in t && t[d].HasRecord(f)) && (|ops| > 0 ==> d in t)
  {
    var add := if r.IsChildInherit() && f == r.faceId && BeatsLowest(r, LowestCost(e.routes, f, true)) then Some(r)
               else None;
    var remove := if on then Nearest(t, p, f) else None;
    BelowOps(t, p, add, remove, d, f, DisinheritCell(p, if e.HasRecord(f) then remove else None, d, f, NOTHING));
  }

  lemma ChangedOps(t: Table, p: Name, r: Route, prev: Option<Route>, d: Name, f: nat)
    requires p in t && Position(t[p].routes, r) < |t[p].routes| && !DoubleFlip(t, RibUpdate(Register, p, r))
    ensures var ops := RegisteredCell(t, p, r, prev, d, f, NOTHING).records;
            SimpleOps(ops, d in t && t[d].HasRecord(f)) && (|ops| > 0 ==> d in t)
  {
    var e, was := InsertIntoEntry(t[p], r), t[p].routes[Position(t[p].routes, r)];
    var anc := Nearest(t, p, f);
    var c1 := UpdatedCostCell(e, p, r, was, prev, d, f, NOTHING);
    var c2 := BelowCell(t, p, UpdatedAdd(r, was, prev, anc, f), UpdatedRemove(r, was, f), d, f, c1);
    BelowOps(t, p, UpdatedAdd(r, was, prev, anc, f), UpdatedRemove(r, was, f), d, f, c1);
    assert |c2.records| > 0 ==> d != p;
    assert forall i :: 0 <= i < |c2.records| && c2.records[i].action == Unregister ==>
           was.IsChildInherit() && !r.IsChildInherit();
  }

  lemma ErasedOps(t: Table, p: Name, i: nat, off: bool, d: Name, f: nat)
    requires p in t && i < |t[p].routes|
    ensures var ops := ErasedRouteCell(t, EraseFromEntry(t[p], i), p, t[p].routes[i], off, d, f, NOTHING).records;
            SimpleOps(ops, d in t && t[d].HasRecord(f)) && (|ops| > 0 ==> d in t) &&
              (|ops| > 0 && d == p ==> |t[p].routes| > 1)
  {
    var e, r, anc := EraseFromEntry(t[p], i), t[p].routes[i], Nearest(t, p, f);
    var reopened := r.IsCapture() && off && |e.routes| != 0;
    var add := if reopened || (!r.IsCapture() && r.IsChildInherit() && !e.HasCapture()) then anc else None;
    var c1 := OwnCell(RemoveUpdate(p, r.faceId), d, f, NOTHING);
    var c2 := InheritCell(p, if reopened && !e.HasFace(f) then anc else None, d, f, c1);
    BelowOps(t, p, add, if r.IsChildInherit() && f == r.faceId then Some(r) else None, d, f, c2);
  }

  /** Without a capture change, a new route at most adds one record to a name below it. */
  lemma PlainRouteOps(t: Table, e: Entry, p: Name, r: Route, d: Name, f: nat, c: Cell)
    ensures var after := NewRouteCell(t, e, p, r, false, d, f, c).records;
            after == c.records ||
            (d in t && d != p && |after| == |c.records| + 1 && after[..|c.records|] == c.records &&
             after[|c.records|].action == Register)
  {
  }

  lemma DropOps(t: Table, p: Name, i: nat, next: Option<Route>, d: Name, f: nat)
    requires p in t && i < |t[p].routes| && (next.Some? ==> |t[p].routes| > 1)
    ensures var ops := UnregisteredCell(t, p, i, next, d, f, NOTHING).records;
            SimpleOps(ops, d in t && t[d].HasRecord(f)) && (|ops| > 0 ==> d in t) &&
              (|ops| > 0 && d == p ==> |t[p].routes| > 1)
  {
    var e, off := EraseFromEntry(t[p], i), t[p].HasCapture() && !EraseFromEntry(t[p], i).HasCapture();
    ErasedOps(t, p, i, off, d, f);
    var c1 := ErasedRouteCell(t, e, p, t[p].routes[i], off, d, f, NOTHING);
    if next.Some? {
      PlainRouteOps(t, e, p, next.value, d, f, c1);
      var after := NewRouteCell(t, e, p, next.value, false, d, f, c1).records;
      assert forall k :: 0 <= k < |c1.records| && |after| > |c1.records| ==> after[k] == after[..|c1.records|][k];
    }
  }

  /** An update changes no inherited records, except that an emptied entry goes. */
  lemma InheritedAfterUpdate(t: Table, u: RibUpdate, d: Name, f: nat)
    ensures var v := TableUpdated(t, u);
            (d in v ==> d in t || (u.action == Register && d == u.name)) &&
            (d in t && d !in v ==> u.action != Register && d == u.name && |t[d].routes| == 1) &&
            (u.action == Register && d == u.name ==> d in v) &&
            (d in v ==> CountAt(v, d, f) == CountAt(t, d, f))
  {
  }

  /** Both flags flipped: the records for d and f, and whether each removal finds one. */
  lemma DoubleFlipRun(t: Table, u: RibUpdate, found: Option<Route>, d: Name, f: nat)
    requires DoubleFlip(t, u)
    ensures var ops := UpdateCell(t, u, found, d, f).records;
            (|ops| > 0 ==> d in t) && (RunOk(CountAt(t, d, f), ops) <==> !ErasesTwiceAt(t, u, d, f))
  {
    var ops := UpdateCell(t, u, found, d, f).records;
    if d in t {
      CountMeaning(t[d].inherited, f);
    }
    RunOkOfThree(CountAt(t, d, f), ops);
  }

  lemma RunOkOfThree(c: nat, ops: seq<RibUpdate>)
    requires |ops| <= 3
    ensures RunOk(c, ops) <==>
              (|ops| > 0 && ops[0].action == Unregister ==> c > 0) &&
              (|ops| > 1 && ops[1].action == Unregister ==> After(c, ops[0].action) > 0) &&
              (|ops| > 2 && ops[2].action == Unregister ==> After(After(c, ops[0].action), ops[1].action) > 0)
    decreases |ops|
  {
    if |ops| > 0 {
      RunOkOfThree(After(c, ops[0].action), ops[1..]);
    }
  }

  /** For one name and face: the entry is there, and each removal finds a record exactly if none is erased twice. */
  lemma UpdateRunOk(t: Table, u: RibUpdate, found: Option<Route>, d: Name, f: nat)
    requires FoundOk(t, u, found)
    ensures var v, ops := TableUpdated(t, u), UpdateCell(t, u, found, d, f).records;
            (|ops| > 0 ==> d in v) && (RunOk(CountAt(v, d, f), ops) <==> !ErasesTwiceAt(t, u, d, f))
  {
    var v, ops := TableUpdated(t, u), UpdateCell(t, u, found, d, f).records;
    InheritedAfterUpdate(t, u, d, f);
    if DoubleFlip(t, u) {
      DoubleFlipRun(t, u, found, d, f);
    } else {
      UpdateOps(t, u, found, d, f);
      if d in t {
        CountMeaning(t[d].inherited, f);
      }
      SimpleRunOk(CountAt(v, d, f), ops);
    }
  }

  /** The records that were computed for an update, sorted by name and face. */
  ghost predicate RecordsComputed(t: Table, u: RibUpdate, found: Option<Route>, records: seq<RibUpdate>) {
    forall n: Name, f: nat :: RecordsFor(records, n, f) == UpdateCell(t, u, found, n, f).records
  }

  /**
   * modifyInheritedRoutes never misses an entry, and it erases a record that is not there exactly if the update erases
   * one twice. Otherwise every name and face has the records that its own changes leave.
   */
  lemma RecordsApplicable(t: Table, u: RibUpdate, found: Option<Route>, records: seq<RibUpdate>)
    requires RecordsComputed(t, u, found, records) && FoundOk(t, u, found)
    ensures var v := TableUpdated(t, u);
            (forall r :: r in records ==> r.name in v) &&
            (Applicable(v, records) <==> !ErasesTwice(t, u)) &&
            (Applicable(v, records) ==> RecordsApplied(v, records))
    ensures var v := TableUpdated(t, u);
            Applicable(v, records) ==>
              forall n: Name, f: nat ::
                CountAt(ApplyRecords(v, records), n, f) == Run(CountAt(v, n, f), UpdateCell(t, u, found, n, f).records)
  {
    var v := TableUpdated(t, u);
    forall r | r in records
      ensures r.name in v
    {
      RecordsForMember(records, r);
      UpdateRunOk(t, u, found, r.name, r.route.faceId);
    }
    forall n: Name, f: nat
      ensures RecordsFor(records, n, f) == UpdateCell(t, u, found, n, f).records
      ensures RunOk(CountAt(v, n, f), RecordsFor(records, n, f)) <==> !ErasesTwiceAt(t, u, n, f)
    {
      UpdateRunOk(t, u, found, n, f);
    }
    if ErasesTwice(t, u) {
      var d :| d in t && ErasesTwiceAt(t, u, d, u.route.faceId);
      if Applicable(v, records) {
        AppliedRunOk(v, records, d, u.route.faceId);
      }
    } else {
      assert forall n: Name, f: nat :: ErasesTwiceAt(t, u, n, f) ==> n in t && f == u.route.faceId;
      RecordsApply(v, records);
    }
  }

  /** A change that the agreement theorems are about, as an update. */
  function AsUpdate(ch: Change, t: Table): RibUpdate
    requires Fits(ch, t)
  {
    match ch
    case DropRoute(p, i) => RibUpdate(Unregister, p, t[p].routes[i])
    case _ => RibUpdate(Register, ch.name, ch.route)
  }

  function FoundFor(ch: Change, t: Table): Option<Route>
    requires Fits(ch, t)
  {
    if ch.ChangeRoute? then FindInherit(InsertIntoEntry(t[ch.name], ch.route).routes, ch.route.faceId) else None
  }

  lemma ChangeIsUpdate(ch: Change, t: Table, d: Name, f: nat)
    requires Fits(ch, t)
    ensures TableUpdated(t, AsUpdate(ch, t)) == TableAfter(ch, t)
    ensures UpdateCell(t, AsUpdate(ch, t), FoundFor(ch, t), d, f) == ChangeCell(ch, t, d, f)
    ensures !DoubleFlip(t, AsUpdate(ch, t)) && FoundOk(t, AsUpdate(ch, t), FoundFor(ch, t))
  {
    match ch
    case AddFace(p, r) =>
      FindFaceMeaning(t[p].routes, r.faceId);
    case DropRoute(p, i) =>
      PositionOfOnly(t[p].routes, i);
    case _ =>
  }

  lemma ChangeApplicable(ch: Change, t: Table, w: Lists)
    requires Fits(ch, t) && Computed(ch, t, w)
    ensures var u := TableAfter(ch, t);
            Applicable(u, w.records) && RecordsApplied(u, w.records) &&
            forall n: Name, f: nat ::
              CountAt(ApplyRecords(u, w.records), n, f) == Run(CountAt(u, n, f), ChangeCell(ch, t, n, f).records)
  {
    var u, found := AsUpdate(ch, t), FoundFor(ch, t);
    ChangeIsUpdate(ch, t, [], 0);
    forall n: Name, f: nat
      ensures RecordsFor(w.records, n, f) == UpdateCell(t, u, found, n, f).records == ChangeCell(ch, t, n, f).records
    {
      ChangeIsUpdate(ch, t, n, f);
      assert CellAt(w, n, f) == ChangeCell(ch, t, n, f);
    }
    RecordsApplicable(t, u, found, w.records);
  }

  lemma {:induction false} RecordsForMember(us: seq<RibUpdate>, r: RibUpdate)
    requires r in us
    ensures |RecordsFor(us, r.name, r.route.faceId)| > 0
  {
    var k := |us| - 1;
    if us[k] != r {
      assert us == us[..k] + [us[k]];
      RecordsForMember(us[..k], r);
    }
  }
}
