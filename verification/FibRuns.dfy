/** Whole runs of route changes: while no change duplicates or strands a record, the FIB agrees at every point. */
module FibRuns {
  import opened Wrappers
  import opened Names
  import opened Routes
  import opened RibModel
  import opened FibUpdates
  import opened FibWalk
  import opened FibAgreement
  import opened FibRecords

  ghost predicate UniqueRecords(t: Table) {
    forall n: Name, f: nat :: CountAt(t, n, f) <= 1
  }

  /** The FIB and the inherited records both say what the definition says. */
  ghost predicate Settled(t: Table, fib: Fib) {
    Agrees(fib, t) && RecordsMatch(t) && UniqueRecords(t)
  }

  /** What the definition wants depends on routes and capture only, not on records. */
  lemma WantedSame(t: Table, u: Table, n: Name, f: nat)
    requires t.Keys == u.Keys && forall m :: m in t ==> SameSources(t[m], u[m])
    ensures Wanted(t, n, f) == Wanted(u, n, f) && Inherits(t, n, f) == Inherits(u, n, f)
  {
    ScanFrame(t, n, u, n, 0, |n|, f);
  }

  /** The table once a change is complete: the routes, then the precalculated records. */
  function Completed(ch: Change, t: Table, w: Lists): Table {
    ApplyRecords(TableAfter(ch, t), w.records)
  }

  // ----- how many records a change leaves -----

  /** The number of records for d and f once the change is complete. */
  function CountAfter(ch: Change, t: Table, d: Name, f: nat): nat
    requires Fits(ch, t)
  {
    Run(CountAt(TableAfter(ch, t), d, f), ChangeCell(ch, t, d, f).records)
  }

  /** The change leaves d and f with a record exactly if d inherits there, and with one record at most. */
  ghost predicate RecordsRightAt(ch: Change, t: Table, d: Name, f: nat)
    requires Fits(ch, t)
  {
    var u := TableAfter(ch, t);
    (d in u ==> (CountAfter(ch, t, d, f) > 0 <==> Inherits(u, d, f))) && CountAfter(ch, t, d, f) <= 1
  }

  function One(r: Option<Route>): nat {
    if r.Some? then 1 else 0
  }

  /** A dependent name of p ends with as many records on face f as p hands routes down there. */
  predicate Balanced(t: Table, u: Table, p: Name, f: nat, add: Option<Route>, remove: Option<Route>) {
    One(add) + (if remove.Some? then 0 else One(Passes(t, p, f))) == One(Passes(u, p, f))
  }

  lemma RunOfTwo(c: nat, ops: seq<RibUpdate>)
    requires |ops| <= 2
    ensures |ops| == 0 ==> Run(c, ops) == c
    ensures |ops| == 1 ==> Run(c, ops) == After(c, ops[0].action)
    ensures |ops| == 2 ==> Run(c, ops) == After(After(c, ops[0].action), ops[1].action)
    decreases |ops|
  {
    if |ops| == 2 {
      RunOfTwo(After(c, ops[0].action), ops[1..]);
    }
  }

  /** What the walk below p leaves at d and f. */
  lemma BelowCount(t: Table, u: Table, p: Name, d: Name, f: nat, add: Option<Route>, remove: Option<Route>)
    requires DifferAt(t, u, p) && d != p && RecordsMatch(t) && CountAt(t, d, f) <= 1
    ensures var n := Run(CountAt(t, d, f), BelowCell(t, p, add, remove, d, f, NOTHING).records);
            if Dependent(t, p, d, f) then
              n == One(add) + (if remove.Some? then 0 else One(Passes(t, p, f))) &&
              (Inherits(u, d, f) <==> Passes(u, p, f).Some?)
            else n == CountAt(t, d, f) && (Inherits(u, d, f) <==> CountAt(t, d, f) > 0)
    ensures CountAt(u, d, f) == CountAt(t, d, f) && (d in u <==> d in t)
  {
    WantedBelow(t, u, p, d, f);
    NearestUnaffected(t, u, p, d, f);
    if d in t {
      CountMeaning(t[d].inherited, f);
      assert t[d].HasRecord(f) <==> Inherits(t, d, f);
      InheritImpliesFace(t[d].routes, f);
      if p < d && Open(t, d, |p| + 1, |d|, f) {
        NearestThrough(t, p, d, f);
        NearestThrough(u, p, d, f);
      }
    }
    RunOfTwo(CountAt(t, d, f), BelowCell(t, p, add, remove, d, f, NOTHING).records);
  }

  /** The records of another name than the changed one are right exactly if they balance where it depends on p. */
  lemma BelowRecords(ch: Change, t: Table, p: Name, d: Name, f: nat, add: Option<Route>, remove: Option<Route>)
    requires Fits(ch, t) && DifferAt(t, TableAfter(ch, t), p) && d != p && RecordsMatch(t) && CountAt(t, d, f) <= 1
    requires ChangeCell(ch, t, d, f).records == BelowCell(t, p, add, remove, d, f, NOTHING).records
    ensures RecordsRightAt(ch, t, d, f) <==>
              (Dependent(t, p, d, f) ==> Balanced(t, TableAfter(ch, t), p, f, add, remove))
  {
    BelowCount(t, TableAfter(ch, t), p, d, f, add, remove);
  }

  // ----- a new name -----

  /** The child-inherit route of a new name is recorded next to an ancestor's. */
  predicate NameMiscounts(t: Table, p: Name, r: Route, d: Name, f: nat) {
    r.IsChildInherit() && !r.IsCapture() && AncestorRouteBelow(t, p, d, f)
  }

  lemma NewNameCount(t: Table, p: Name, r: Route, d: Name, f: nat)
    requires p !in t && RecordsMatch(t) && CountAt(t, d, f) <= 1
    ensures RecordsRightAt(AddName(p, r), t, d, f) <==> !NameMiscounts(t, p, r, d, f)
  {
    var u := Inserted(t, p, r);
    assert u[p].routes == [] + [r] && u[p].HasCapture() == r.IsCapture();
    FindAppend([], r, f);
    NearestUnaffected(t, u, p, p, f);
    if d != p {
      BelowRecords(AddName(p, r), t, p, d, f,
                   AddedBelow(r, Nearest(t, p, f), f), if r.IsCapture() then Nearest(t, p, f) else None);
    } else {
      RunOfTwo(0, ChangeCell(AddName(p, r), t, d, f).records);
    }
  }

  // ----- a new face -----

  /** An own route now covers an inherited one, at p or below it, or capture takes a record of p's own route away. */
  predicate FaceMiscounts(t: Table, p: Name, r: Route, d: Name, f: nat)
    requires p in t
  {
    if f == r.faceId then
      !r.IsCapture() && Inherits(t, p, f) && (d == p || (r.IsChildInherit() && Dependent(t, p, d, f)))
    else !t[p].HasCapture() && r.IsCapture() && OwnRouteAmongAncestors(t, p, d, f)
  }

  lemma NewFaceBalanced(t: Table, p: Name, r: Route, f: nat)
    requires Fits(AddFace(p, r), t)
    ensures Balanced(t, Inserted(t, p, r), p, f, if r.IsChildInherit() && f == r.faceId then Some(r) else None,
                     if !t[p].HasCapture() && r.IsCapture() then Nearest(t, p, f) else None) <==>
              if f == r.faceId then !(!r.IsCapture() && Inherits(t, p, f) && r.IsChildInherit())
              else !(!t[p].HasCapture() && r.IsCapture() && t[p].HasChildInherit(f) && Nearest(t, p, f).Some?)
  {
    var e, u := t[p], Inserted(t, p, r);
    FindFaceMeaning(e.routes, r.faceId);
    FindAppend(e.routes, r, f);
    InheritImpliesFace(e.routes, r.faceId);
    CaptureCountMeaning(e.routes);
    NearestUnaffected(t, u, p, p, f);
  }

  lemma NewFaceCell(t: Table, p: Name, r: Route, d: Name, f: nat)
    requires Fits(AddFace(p, r), t) && d != p
    ensures ChangeCell(AddFace(p, r), t, d, f).records ==
            BelowCell(t, p, if r.IsChildInherit() && f == r.faceId then Some(r) else None,
                      if !t[p].HasCapture() && r.IsCapture() then Nearest(t, p, f) else None, d, f, NOTHING).records
  {
    NoRouteNoCost(t[p].routes, r.faceId, true);
  }

  lemma NewFaceCount(t: Table, p: Name, r: Route, d: Name, f: nat)
    requires Fits(AddFace(p, r), t) && RecordsMatch(t) && CountAt(t, d, f) <= 1
    ensures RecordsRightAt(AddFace(p, r), t, d, f) <==> !FaceMiscounts(t, p, r, d, f)
  {
    if d == p {
      NewFaceCountAtName(t, p, r, f);
    } else {
      NewFaceBalanced(t, p, r, f);
      NewFaceCell(t, p, r, d, f);
      BelowRecords(AddFace(p, r), t, p, d, f, if r.IsChildInherit() && f == r.faceId then Some(r) else None,
                   if !t[p].HasCapture() && r.IsCapture() then Nearest(t, p, f) else None);
    }
  }

  lemma NewFaceCountAtName(t: Table, p: Name, r: Route, f: nat)
    requires Fits(AddFace(p, r), t) && RecordsMatch(t) && CountAt(t, p, f) <= 1
    ensures RecordsRightAt(AddFace(p, r), t, p, f) <==> !FaceMiscounts(t, p, r, p, f)
  {
    var e, u := t[p], Inserted(t, p, r);
    FindFaceMeaning(e.routes, r.faceId);
    FindAppend(e.routes, r, f);
    CaptureCountMeaning(e.routes);
    NearestUnaffected(t, u, p, p, f);
    CountMeaning(e.inherited, f);
    assert e.HasRecord(f) <==> Inherits(t, p, f);
    RunOfTwo(CountAt(t, p, f), ChangeCell(AddFace(p, r), t, p, f).records);
  }

  // ----- a changed route -----

  /**
   * A cheaper or dearer child-inherit route is recorded again, one that becomes child-inherit is recorded next to an
   * ancestor's, and one that stops being child-inherit leaves an ancestor's past a capture.
   */
  predicate ChangeMiscounts(t: Table, p: Name, r: Route, d: Name, f: nat)
    requires p in t && Position(t[p].routes, r) < |t[p].routes|
  {
    f == r.faceId && Dependent(t, p, d, f) && ChangeUnbalanced(t, p, r)
  }

  predicate ChangeUnbalanced(t: Table, p: Name, r: Route)
    requires p in t && Position(t[p].routes, r) < |t[p].routes|
  {
    var was := t[p].routes[Position(t[p].routes, r)];
    if r.IsChildInherit() && was.IsChildInherit() then r.cost != was.cost && r.flags == was.flags
    else if r.IsChildInherit() then !t[p].HasCapture() && Nearest(t, p, r.faceId).Some?
    else was.IsChildInherit() && t[p].HasCapture() && Nearest(t, p, r.faceId).Some?
  }

  /** What the children are given and lose for a changed route that is the only one of its face. */
  function ChangeAdd(t: Table, p: Name, r: Route, f: nat): Option<Route>
    requires Fits(ChangeRoute(p, r), t)
  {
    UpdatedAdd(r, t[p].routes[Position(t[p].routes, r)], FindInherit(InsertIntoEntry(t[p], r).routes, r.faceId),
               Nearest(t, p, f), f)
  }

  function ChangeRemove(t: Table, p: Name, r: Route, f: nat): Option<Route>
    requires Fits(ChangeRoute(p, r), t)
  {
    UpdatedRemove(r, t[p].routes[Position(t[p].routes, r)], f)
  }

  lemma ChangeBalanced(t: Table, p: Name, r: Route, f: nat)
    requires Fits(ChangeRoute(p, r), t)
    ensures Balanced(t, Inserted(t, p, r), p, f, ChangeAdd(t, p, r, f), ChangeRemove(t, p, r, f)) <==>
              !(f == r.faceId && ChangeUnbalanced(t, p, r))
  {
    ChangedFace(t[p], r, f);
    ChangedFace(t[p], r, r.faceId);
    NearestUnaffected(t, Inserted(t, p, r), p, p, f);
  }

  lemma ChangeCellBelow(t: Table, p: Name, r: Route, d: Name, f: nat)
    requires Fits(ChangeRoute(p, r), t) && d != p
    ensures ChangeCell(ChangeRoute(p, r), t, d, f).records ==
            BelowCell(t, p, ChangeAdd(t, p, r, f), ChangeRemove(t, p, r, f), d, f, NOTHING).records
  {
  }

  lemma ChangeCount(t: Table, p: Name, r: Route, d: Name, f: nat)
    requires Fits(ChangeRoute(p, r), t) && RecordsMatch(t) && CountAt(t, d, f) <= 1
    ensures RecordsRightAt(ChangeRoute(p, r), t, d, f) <==> !ChangeMiscounts(t, p, r, d, f)
  {
    if d == p {
      ChangeCountAtName(t, p, r, f);
    } else {
      ChangeBalanced(t, p, r, f);
      ChangeCellBelow(t, p, r, d, f);
      BelowRecords(ChangeRoute(p, r), t, p, d, f, ChangeAdd(t, p, r, f), ChangeRemove(t, p, r, f));
    }
  }

  lemma ChangeCountAtName(t: Table, p: Name, r: Route, f: nat)
    requires Fits(ChangeRoute(p, r), t) && RecordsMatch(t) && CountAt(t, p, f) <= 1
    ensures RecordsRightAt(ChangeRoute(p, r), t, p, f)
  {
    ChangedFace(t[p], r, f);
    ChangedFace(t[p], r, r.faceId);
    NearestUnaffected(t, Inserted(t, p, r), p, p, f);
    CountMeaning(t[p].inherited, f);
    assert t[p].HasRecord(f) <==> Inherits(t, p, f);
  }

  // ----- an erased route -----

  /**
   * With the last route of a name, a capture strands the names that an ancestor's route reaches, and a child-inherit
   * route duplicates the ancestors' routes on other faces. With one of several, giving the ancestors' routes back
   * duplicates what the names below have already, and a capture route is replaced twice at the name itself.
   */
  predicate DropMiscounts(t: Table, p: Name, i: nat, d: Name, f: nat)
    requires p in t && i < |t[p].routes|
  {
    var e, r := EraseFromEntry(t[p], i), t[p].routes[i];
    Nearest(t, p, f).Some? &&
    if d == p then |e.routes| > 0 && f == r.faceId && r.IsCapture() && !e.HasCapture()
    else Dependent(t, p, d, f) && DropUnbalanced(e, r, f)
  }

  predicate DropUnbalanced(e: Entry, r: Route, f: nat) {
    if |e.routes| == 0 then r.IsCapture() || (r.IsChildInherit() && f != r.faceId)
    else !e.HasCapture() && f != r.faceId && if r.IsCapture() then e.HasChildInherit(f) else r.IsChildInherit()
  }

  lemma DropBalanced(t: Table, p: Name, i: nat, f: nat)
    requires Fits(DropRoute(p, i), t)
    ensures Balanced(t, TableAfter(DropRoute(p, i), t), p, f, DropAdd(t, p, i, f), DropRemove(t, p, i, f)) <==>
              !(Nearest(t, p, f).Some? && DropUnbalanced(EraseFromEntry(t[p], i), t[p].routes[i], f))
  {
    PositionOfOnly(t[p].routes, i);
    DroppedFace(t[p], i, f);
    DroppedCapture(t[p], i);
    NearestUnaffected(t, TableAfter(DropRoute(p, i), t), p, p, f);
  }

  lemma DropCount(t: Table, p: Name, i: nat, d: Name, f: nat)
    requires Fits(DropRoute(p, i), t) && RecordsMatch(t) && CountAt(t, d, f) <= 1
    ensures RecordsRightAt(DropRoute(p, i), t, d, f) <==> !DropMiscounts(t, p, i, d, f)
  {
    if d == p {
      DropCountAtName(t, p, i, f);
    } else {
      PositionOfOnly(t[p].routes, i);
      DropBalanced(t, p, i, f);
      DropCellBelow(t, p, i, d, f);
      BelowRecords(DropRoute(p, i), t, p, d, f, DropAdd(t, p, i, f), DropRemove(t, p, i, f));
    }
  }

  /** The name itself only takes routes over. */
  lemma DropCellAtName(t: Table, p: Name, i: nat, f: nat)
    requires Fits(DropRoute(p, i), t)
    ensures var e, r, ops := EraseFromEntry(t[p], i), t[p].routes[i], ChangeCell(DropRoute(p, i), t, p, f).records;
            (forall j :: 0 <= j < |ops| ==> ops[j].action == Register) &&
            |ops| == if Nearest(t, p, f).None? || |e.routes| == 0 || e.HasCapture() then 0
                     else (if r.IsCapture() && !e.HasFace(f) then 1 else 0) + (if f == r.faceId then 1 else 0)
  {
    DroppedCapture(t[p], i);
  }

  lemma DropCountAtName(t: Table, p: Name, i: nat, f: nat)
    requires Fits(DropRoute(p, i), t) && RecordsMatch(t) && CountAt(t, p, f) <= 1
    ensures RecordsRightAt(DropRoute(p, i), t, p, f) <==> !DropMiscounts(t, p, i, p, f)
  {
    var u := TableAfter(DropRoute(p, i), t);
    PositionOfOnly(t[p].routes, i);
    DroppedFace(t[p], i, f);
    DroppedCapture(t[p], i);
    NearestUnaffected(t, u, p, p, f);
    CountMeaning(t[p].inherited, f);
    assert t[p].HasRecord(f) <==> Inherits(t, p, f);
    DropCellAtName(t, p, i, f);
    RunOfTwo(CountAt(u, p, f), ChangeCell(DropRoute(p, i), t, p, f).records);
  }

  // ----- the changes that keep FIB and records -----

  /** The FIB goes wrong at d and f. */
  predicate GoesWrong(ch: Change, t: Table, d: Name, f: nat)
    requires Fits(ch, t)
  {
    match ch
    case AddName(p, r) => false
    case AddFace(p, r) => !t[p].HasCapture() && r.IsCapture() && OwnRouteAmongAncestors(t, p, d, f)
    case ChangeRoute(p, r) => ChangeGoesWrong(t, p, r, d, f)
    case DropRoute(p, i) => DropGoesWrong(t, p, i, d, f)
  }

  /** A record is missing, left over or doubled at d and f. */
  predicate Miscounts(ch: Change, t: Table, d: Name, f: nat)
    requires Fits(ch, t)
  {
    match ch
    case AddName(p, r) => NameMiscounts(t, p, r, d, f)
    case AddFace(p, r) => FaceMiscounts(t, p, r, d, f)
    case ChangeRoute(p, r) => ChangeMiscounts(t, p, r, d, f)
    case DropRoute(p, i) => DropMiscounts(t, p, i, d, f)
  }

  ghost predicate Quiet(ch: Change, t: Table)
    requires Fits(ch, t)
  {
    forall d: Name, f: nat :: !GoesWrong(ch, t, d, f) && !Miscounts(ch, t, d, f)
  }

  lemma RecordsRight(ch: Change, t: Table, d: Name, f: nat)
    requires Fits(ch, t) && RecordsMatch(t) && UniqueRecords(t)
    ensures RecordsRightAt(ch, t, d, f) <==> !Miscounts(ch, t, d, f)
  {
    match ch
    case AddName(p, r) => NewNameCount(t, p, r, d, f);
    case AddFace(p, r) => NewFaceCount(t, p, r, d, f);
    case ChangeRoute(p, r) => ChangeCount(t, p, r, d, f);
    case DropRoute(p, i) => DropCount(t, p, i, d, f);
  }

  lemma FibRight(ch: Change, t: Table, d: Name, f: nat)
    requires Fits(ch, t) && RecordsMatch(t)
    ensures RightAt(ch, t, d, f) <==> !GoesWrong(ch, t, d, f)
  {
    match ch
    case AddName(p, r) => NewNameAt(t, p, r, d, f);
    case AddFace(p, r) => NewFaceAt(t, p, r, d, f);
    case ChangeRoute(p, r) => ChangeAt(t, p, r, d, f);
    case DropRoute(p, i) => DropAt(t, p, i, d, f);
  }

  /** FIB and records of one name and face are settled by the complete change exactly if both are right there. */
  lemma SettledAt(ch: Change, t: Table, w: Lists, d: Name, f: nat)
    requires Fits(ch, t) && Computed(ch, t, w)
    ensures var v := Completed(ch, t, w);
            Wanted(v, d, f) == Wanted(TableAfter(ch, t), d, f) &&
            (RecordsRightAt(ch, t, d, f) <==>
               (d in v ==> (v[d].HasRecord(f) <==> Inherits(v, d, f))) && CountAt(v, d, f) <= 1)
  {
    var u, v := TableAfter(ch, t), Completed(ch, t, w);
    ChangeApplicable(ch, t, w);
    WantedSame(u, v, d, f);
    assert CountAt(v, d, f) == CountAfter(ch, t, d, f);
    if d in v {
      CountMeaning(v[d].inherited, f);
    }
  }

  /** A change takes a settled table and FIB to settled ones if and only if it is quiet, in any order of updates. */
  lemma QuietChangeSettles(ch: Change, t: Table, fib: Fib, w: Lists, sent: seq<FibUpdate>)
    requires Fits(ch, t) && Settled(t, fib) && Computed(ch, t, w) && AllSent(w, sent)
    ensures Settled(Completed(ch, t, w), ApplyAll(fib, sent)) <==> Quiet(ch, t)
  {
    var u, v, fib' := TableAfter(ch, t), Completed(ch, t, w), ApplyAll(fib, sent);
    forall d: Name, f: nat
      ensures RightAt(ch, t, d, f) <==> !GoesWrong(ch, t, d, f)
      ensures RecordsRightAt(ch, t, d, f) <==> !Miscounts(ch, t, d, f)
      ensures Wanted(v, d, f) == Wanted(u, d, f)
      ensures RecordsRightAt(ch, t, d, f) <==>
                (d in v ==> (v[d].HasRecord(f) <==> Inherits(v, d, f))) && CountAt(v, d, f) <= 1
    {
      FibRight(ch, t, d, f);
      RecordsRight(ch, t, d, f);
      SettledAt(ch, t, w, d, f);
    }
    AgreesAfter(ch, fib, t, w, sent);
    SameWanted(fib', u, v);
    AllRecordsRight(ch, t, v);
  }

  lemma SameWanted(fib: Fib, u: Table, v: Table)
    requires forall d: Name, f: nat :: Wanted(v, d, f) == Wanted(u, d, f)
    ensures Agrees(fib, u) <==> Agrees(fib, v)
  {
  }

  lemma AllRecordsRight(ch: Change, t: Table, v: Table)
    requires Fits(ch, t)
    requires forall d: Name, f: nat ::
               RecordsRightAt(ch, t, d, f) <==>
                 (d in v ==> (v[d].HasRecord(f) <==> Inherits(v, d, f))) && CountAt(v, d, f) <= 1
    ensures RecordsMatch(v) && UniqueRecords(v) <==> forall d: Name, f: nat :: RecordsRightAt(ch, t, d, f)
  {
  }

  // ----- runs -----

  /** One completed change: what was computed, and the order in which the updates reached the FIB. */
  datatype Round = Round(ch: Change, w: Lists, sent: seq<FibUpdate>)

  /** Each change fits its table, and its updates are computed from it and sent. */
  ghost predicate ComputedRun(t: Table, rounds: seq<Round>)
    decreases |rounds|
  {
    |rounds| == 0 ||
    (var x := rounds[0];
     Fits(x.ch, t) && Computed(x.ch, t, x.w) && AllSent(x.w, x.sent) &&
       ComputedRun(Completed(x.ch, t, x.w), rounds[1..]))
  }

  ghost predicate QuietRun(t: Table, rounds: seq<Round>)
    requires ComputedRun(t, rounds)
    decreases |rounds|
  {
    |rounds| == 0 || (Quiet(rounds[0].ch, t) && QuietRun(Completed(rounds[0].ch, t, rounds[0].w), rounds[1..]))
  }

  /** The FIB holds own routes plus the nearest unblocked ancestor routes at the start and after every change. */
  ghost predicate SettledThroughout(t: Table, fib: Fib, rounds: seq<Round>)
    decreases |rounds|
  {
    Settled(t, fib) &&
    (|rounds| == 0 ||
     SettledThroughout(Completed(rounds[0].ch, t, rounds[0].w), ApplyAll(fib, rounds[0].sent), rounds[1..]))
  }

  /** A run stays settled throughout if and only if every change in it is quiet. */
  lemma {:induction false} QuietRunSettles(t: Table, fib: Fib, rounds: seq<Round>)
    requires Settled(t, fib) && ComputedRun(t, rounds)
    ensures SettledThroughout(t, fib, rounds) <==> QuietRun(t, rounds)
    decreases |rounds|
  {
    if |rounds| > 0 {
      var x := rounds[0];
      var v, fib' := Completed(x.ch, t, x.w), ApplyAll(fib, x.sent);
      QuietChangeSettles(x.ch, t, fib, x.w, x.sent);
      if Quiet(x.ch, t) {
        QuietRunSettles(v, fib', rounds[1..]);
      } else {
        assert SettledThroughout(v, fib', rounds[1..]) ==> Settled(v, fib');
      }
    }
  }

  lemma EmptySettled()
    ensures Settled(map[], map[])
  {
  }
}
