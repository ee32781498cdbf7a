/** Runs of Rib::insert and Rib::erase: the tree of entries, the face index and the capture counters. */
module RibRuns {
  import opened Wrappers
  import opened Names
  import opened Routes
  import opened RibModel
  import opened RibTable
  import opened RibRoutes
  import opened FibAgreement

  // ----- runs -----

  datatype RouteOp = Put(name: Name, route: Route) | Take(name: Name, route: Route)

  function Did(t: Table, op: RouteOp): Table {
    match op
    case Put(p, r) => Inserted(t, p, r)
    case Take(p, r) => Erased(t, p, r)
  }

  /** The table after a run of Rib::insert and Rib::erase. */
  function DidAll(t: Table, ops: seq<RouteOp>): Table {
    if |ops| == 0 then t else Did(DidAll(t, ops[..|ops| - 1]), ops[|ops| - 1])
  }

  method Perform(rib: Rib, op: RouteOp)
    requires rib.Valid()
    modifies rib, rib.table.Values
    ensures rib.Valid() && rib.State() == Did(old(rib.State()), op)
    ensures fresh(rib.table.Values - old(rib.table.Values))
  {
    if op.Put? {
      var _ := rib.Insert(op.name, op.route);
    } else {
      var _ := rib.Erase(op.name, op.route);
    }
  }

  /** The calls in order on a new RIB: all asserts of addChild and removeChild hold on the way. */
  method Replay(ops: seq<RouteOp>) returns (rib: Rib)
    ensures rib.Valid() && rib.State() == DidAll(map[], ops)
  {
    rib := new Rib();
    var i := 0;
    while i < |ops|
      invariant i <= |ops| && rib.Valid() && rib.State() == DidAll(map[], ops[..i])
      invariant fresh(rib) && fresh(rib.table.Values)
    {
      assert ops[..i + 1][..i] == ops[..i];
      Perform(rib, ops[i]);
      i := i + 1;
    }
    assert ops[..i] == ops;
  }

  /** An entry's parent is the entry of the longest proper prefix in the table, null if there is none. */
  lemma ParentMeaning(rib: Rib, n: Name)
    requires rib.Valid() && n in rib.table
    ensures var e, t := rib.table[n], rib.table;
            (e.parent == null <==> forall j :: 0 <= j < |n| ==> n[..j] !in t) &&
            (e.parent != null ==>
               e.parent.name in t && t[e.parent.name] == e.parent && e.parent.name < n &&
               forall j :: |e.parent.name| < j < |n| ==> n[..j] !in t)
  {
    var k := ParentLength(rib.table.Keys, n, |n|);
    assert rib.table[n].parent == ParentIn(rib.table, n);
    if k >= 0 {
      assert rib.table[n[..k]].name == n[..k];
    }
  }

  /** The children of an entry are exactly the entries below it with no entry in between, each listed once. */
  lemma ChildrenMeaning(rib: Rib, p: Name, c: Name)
    requires rib.Valid() && p in rib.table && c in rib.table
    ensures rib.table[c] in rib.table[p].children <==> IsChild(rib.table.Keys, p, c)
    ensures NoDuplicates(rib.table[p].children) && forall e | e in rib.table[p].children :: e in rib.table.Values
  {
    ChildMeansParent(rib.table.Keys, p, c);
    assert rib.table[c].parent == ParentIn(rib.table, c);
    assert rib.table[p].name == p && rib.table[c].name == c;
    var e := rib.table[p];
    assert NoDuplicates(e.children);
  }

  /** An entry is listed under a face exactly when it is in the table and has a route on the face. */
  lemma FaceIndexMeaning(rib: Rib, f: nat, e: RibEntry)
    requires rib.Valid()
    ensures f in rib.faceMap && e in rib.faceMap[f] <==>
            e in rib.table.Values && exists r | r in e.routes :: r.faceId == f
  {
    if e in rib.table.Values {
      var n :| n in rib.table && rib.table[n] == e;
      assert rib.State()[n].HasFace(f) <==> f in rib.faceMap && rib.table[n] in rib.faceMap[f];
      FindFaceMeaning(e.routes, f);
      if r :| r in e.routes && r.faceId == f {
        var i :| 0 <= i < |e.routes| && e.routes[i] == r;
      }
    }
  }

  // ----- which routes a run leaves -----

  /** What the last call about a name, face and origin leaves there. */
  function LastCall(ops: seq<RouteOp>, n: Name, f: nat, o: nat): Option<Route> {
    if |ops| == 0 then None
    else
      var op := ops[|ops| - 1];
      if op.name == n && op.route.faceId == f && op.route.origin == o then
        if op.Put? then Some(op.route) else None
      else LastCall(ops[..|ops| - 1], n, f, o)
  }

  lemma {:induction false} RunRoutesOk(ops: seq<RouteOp>)
    ensures RoutesOk(DidAll(map[], ops))
  {
    if |ops| > 0 {
      var t, op := DidAll(map[], ops[..|ops| - 1]), ops[|ops| - 1];
      RunRoutesOk(ops[..|ops| - 1]);
      RoutesAfterInsert(t, op.name, op.route);
      ErasedOk(t, op.name, op.route);
    }
  }

  lemma {:induction false} LastCallAt(ops: seq<RouteOp>, n: Name, f: nat, o: nat)
    ensures RouteAt(DidAll(map[], ops), n, f, o) == LastCall(ops, n, f, o)
  {
    if |ops| > 0 {
      var t, op := DidAll(map[], ops[..|ops| - 1]), ops[|ops| - 1];
      LastCallAt(ops[..|ops| - 1], n, f, o);
      RunRoutesOk(ops[..|ops| - 1]);
      InsertedAt(t, op.name, op.route, n, f, o);
      ErasedAt(t, op.name, op.route, n, f, o);
    }
  }

  /**
   * After any run an entry has exactly the routes that the last call about their face and origin put there, with the
   * flags, cost and expiry of that call, and a name has an entry exactly if it has a route.
   */
  lemma RoutesAfterRun(ops: seq<RouteOp>, n: Name, r: Route)
    ensures var t := DidAll(map[], ops);
            (n in t && r in t[n].routes <==> LastCall(ops, n, r.faceId, r.origin) == Some(r)) &&
            (n in t <==> exists f: nat, o: nat :: LastCall(ops, n, f, o).Some?)
  {
    var t := DidAll(map[], ops);
    RunRoutesOk(ops);
    InTable(t, n);
    AnyCall(ops, n);
    LastCallAt(ops, n, r.faceId, r.origin);
    if n in t {
      RouteOfMeaning(t[n].routes, r);
    }
  }

  lemma AnyCall(ops: seq<RouteOp>, n: Name)
    ensures var t := DidAll(map[], ops);
            (exists f: nat, o: nat :: RouteAt(t, n, f, o).Some?) <==>
            (exists f: nat, o: nat :: LastCall(ops, n, f, o).Some?)
  {
    if f: nat, o: nat :| RouteAt(DidAll(map[], ops), n, f, o).Some? {
      LastCallAt(ops, n, f, o);
    }
    if f: nat, o: nat :| LastCall(ops, n, f, o).Some? {
      LastCallAt(ops, n, f, o);
    }
  }

  // ----- the capture counter -----

  lemma {:induction false} CaptureCountUpdate(routes: seq<Route>, i: nat, r: Route)
    requires i < |routes|
    ensures CaptureCount(routes[i := r]) + (if routes[i].IsCapture() then 1 else 0) ==
            CaptureCount(routes) + if r.IsCapture() then 1 else 0
  {
    var n := |routes| - 1;
    if i == n {
      assert routes[i := r][..n] == routes[..n];
    } else {
      assert routes[i := r][..n] == routes[..n][i := r];
      CaptureCountUpdate(routes[..n], i, r);
    }
  }

  /** Re-registration keeps the counter exact precisely if it does not flip the capture flag. */
  lemma InsertCounter(e: Entry, r: Route)
    requires e.nCaptures == CaptureCount(e.routes) && |e.routes| + 1 < UINT64
    ensures var e', i := InsertIntoEntry(e, r), Position(e.routes, r);
            e'.nCaptures == CaptureCount(e'.routes) <==>
              (i < |e.routes| ==> (e.routes[i].IsCapture() <==> r.IsCapture()))
  {
    var i := Position(e.routes, r);
    if i < |e.routes| {
      CaptureCountUpdate(e.routes, i, e.routes[i].(flags := r.flags, cost := r.cost, expires := r.expires));
    } else {
      CaptureCountMeaning(e.routes);
      assert (e.routes + [r])[..|e.routes|] == e.routes;
    }
  }

  /** A route that gains the capture flag and is then erased takes the counter of a capture-free entry below zero. */
  lemma CounterWraps(e: Entry, r: Route)
    requires CounterExact(e) && !AnyCapture(e.routes) && Position(e.routes, r) < |e.routes| && r.IsCapture()
    ensures var i := Position(e.routes, r);
            var e' := EraseFromEntry(InsertIntoEntry(e, r), i);
            e'.routes == e.routes[..i] + e.routes[i + 1..] && !AnyCapture(e'.routes) &&
            e'.nCaptures == UINT64 - 1 && e'.HasCapture()
  {
    CaptureCountMeaning(e.routes);
    var i := Position(e.routes, r);
    var e' := EraseFromEntry(InsertIntoEntry(e, r), i);
    assert forall k :: 0 <= k < |e'.routes| ==> e'.routes[k] in e.routes;
  }

  /**
   * Four calls on an empty RIB: of two routes of a name, one gains the capture flag, which leaves it uncounted, and is
   * erased, which takes the counter below zero.
   */
  lemma WrappingExample(p: Name)
    ensures var a, b := Route(1, 0, 0, 0, 0), Route(2, 0, 0, 0, 0);
            var t2 := Did(Did(map[], Put(p, a)), Put(p, b));
            var t3 := Did(t2, Put(p, a.(flags := 2)));
            FlipsCapture(t2, Put(p, a.(flags := 2))) &&
            t3 == map[p := Entry([a.(flags := 2), b], [], 0)] &&
            Did(t3, Take(p, a)) == map[p := Entry([b], [], UINT64 - 1)]
  {
    var a, b := Route(1, 0, 0, 0, 0), Route(2, 0, 0, 0, 0);
    WrappingEntry(a, b);
    var t1: Table := map[p := Entry([a], [], 0)];
    var t2: Table := map[p := Entry([a, b], [], 0)];
    var t3: Table := map[p := Entry([a.(flags := 2), b], [], 0)];
    assert Did(map[], Put(p, a)) == t1;
    assert Did(t1, Put(p, b)) == t2;
    assert Did(t2, Put(p, a.(flags := 2))) == t3;
    assert Did(t3, Take(p, a)) == map[p := Entry([b], [], UINT64 - 1)];
  }

  lemma WrappingEntry(a: Route, b: Route)
    requires a == Route(1, 0, 0, 0, 0) && b == Route(2, 0, 0, 0, 0)
    ensures InsertIntoEntry(Entry([], [], 0), a) == Entry([a], [], 0)
    ensures InsertIntoEntry(Entry([a], [], 0), b) == Entry([a, b], [], 0)
    ensures Position([a, b], a.(flags := 2)) == 0
    ensures InsertIntoEntry(Entry([a, b], [], 0), a.(flags := 2)) == Entry([a.(flags := 2), b], [], 0)
    ensures Position([a.(flags := 2), b], a) == 0
    ensures EraseFromEntry(Entry([a.(flags := 2), b], [], 0), 0) == Entry([b], [], UINT64 - 1)
  {
    assert [] + [a] == [a] && [a][1..] == [] && Position([a], b) == 1 && [a] + [b] == [a, b];
    assert [a, b][0 := a.(flags := 2)] == [a.(flags := 2), b];
    assert [a.(flags := 2), b][..0] + [a.(flags := 2), b][1..] == [b];
  }

  predicate FlipsCapture(t: Table, op: RouteOp) {
    op.Put? && op.name in t &&
    var routes := t[op.name].routes;
    var i := Position(routes, op.route);
    i < |routes| && routes[i].IsCapture() != op.route.IsCapture()
  }

  predicate CountersExact(t: Table) {
    forall n :: n in t ==> t[n].nCaptures == CaptureCount(t[n].routes)
  }

  /** No entry has more routes than there were calls. */
  lemma {:induction false} FewRoutes(ops: seq<RouteOp>)
    ensures forall n :: n in DidAll(map[], ops) ==> |DidAll(map[], ops)[n].routes| <= |ops|
  {
    if |ops| > 0 {
      FewRoutes(ops[..|ops| - 1]);
    }
  }

  /** A change of one entry. */
  lemma CountersAt(t: Table, p: Name, e: Entry)
    requires CountersExact(t)
    ensures CountersExact(t[p := e]) <==> e.nCaptures == CaptureCount(e.routes)
    ensures CountersExact(t - {p})
  {
    assert t[p := e][p] == e;
  }

  /** One more call keeps the counters exact if and only if it does not flip the capture flag of an existing route. */
  lemma CountersAfterOp(t: Table, op: RouteOp)
    requires CountersExact(t) && forall n :: n in t ==> |t[n].routes| + 1 < UINT64
    ensures CountersExact(Did(t, op)) <==> !FlipsCapture(t, op)
  {
    var p := op.name;
    var e := if p in t then t[p] else Entry([], [], 0);
    if op.Put? {
      InsertCounter(e, op.route);
      CountersAt(t, p, InsertIntoEntry(e, op.route));
    } else if p in t && Position(e.routes, op.route) < |e.routes| {
      var i := Position(e.routes, op.route);
      DroppedCount(e, i);
      CountersAt(t, p, EraseFromEntry(e, i));
    }
  }

  lemma CountersAfterNext(ops: seq<RouteOp>, k: nat)
    requires k < |ops| && k + 1 < UINT64 && CountersExact(DidAll(map[], ops[..k]))
    ensures CountersExact(DidAll(map[], ops[..k + 1])) <==> !FlipsCapture(DidAll(map[], ops[..k]), ops[k])
  {
    assert ops[..k + 1][..k] == ops[..k];
    FewRoutes(ops[..k]);
    CountersAfterOp(DidAll(map[], ops[..k]), ops[k]);
  }

  /** The counters are exact throughout a run if and only if no call flips the capture flag of an existing route. */
  lemma CountersAfterRun(ops: seq<RouteOp>)
    requires |ops| < UINT64
    ensures (forall j :: 0 <= j <= |ops| ==> CountersExact(DidAll(map[], ops[..j]))) <==>
              forall i :: 0 <= i < |ops| ==> !FlipsCapture(DidAll(map[], ops[..i]), ops[i])
  {
    var good := j => 0 <= j <= |ops| && CountersExact(DidAll(map[], ops[..j]));
    var bad := i => 0 <= i < |ops| && FlipsCapture(DidAll(map[], ops[..i]), ops[i]);
    forall k | 0 <= k < |ops| && good(k)
      ensures good(k + 1) <==> !bad(k)
    {
      CountersAfterNext(ops, k);
    }
    Throughout(good, bad, |ops|);
    assert forall j :: 0 <= j <= |ops| ==> (good(j) <==> CountersExact(DidAll(map[], ops[..j])));
    assert forall i :: 0 <= i < |ops| ==> (bad(i) <==> FlipsCapture(DidAll(map[], ops[..i]), ops[i]));
  }

  lemma DroppedCount(e: Entry, i: nat)
    requires i < |e.routes| && e.nCaptures == CaptureCount(e.routes)
    ensures var e' := EraseFromEntry(e, i); e'.nCaptures == CaptureCount(e'.routes)
  {
    var a, r, c := e.routes[..i], e.routes[i], e.routes[i + 1..];
    assert e.routes == a + ([r] + c);
    CaptureCountSplit(a, [r] + c);
    CaptureCountSplit([r], c);
    CaptureCountSplit(a, c);
    assert CaptureCount([r]) == if r.IsCapture() then 1 else 0;
  }
}
