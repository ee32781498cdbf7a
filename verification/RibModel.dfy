/** The RIB as a value, its name tree, and the definition the FIB has to agree with. */
module RibModel {
  import opened Wrappers
  import opened Names
  import opened Routes

  const UINT64: nat := 0x1_0000_0000_0000_0000

  /** The part of a RibEntry that does not link to other entries. */
  datatype Entry = Entry(routes: seq<Route>, inherited: seq<Route>, nCaptures: nat) {
    predicate HasCapture() {
      nCaptures > 0
    }

    predicate HasFace(f: nat) {
      FindFace(routes, f).Some?
    }

    predicate HasChildInherit(f: nat) {
      FindInherit(routes, f).Some?
    }

    predicate HasRecord(f: nat) {
      FindFace(inherited, f).Some?
    }
  }

  type Table = map<Name, Entry>

  // ----- the name tree -----

  /** The length of the longest prefix of n, shorter than k, that is a key; -1 if there is none. */
  function ParentLength(keys: set<Name>, n: Name, k: nat): (r: int)
    requires k <= |n|
    ensures -1 <= r < k
    ensures r >= 0 ==> n[..r] in keys
    ensures forall j :: r < j < k ==> n[..j] !in keys
  {
    if k == 0 then -1 else if n[..k - 1] in keys then k - 1 else ParentLength(keys, n, k - 1)
  }

  /** c is a key below p with no key strictly between them; p need not be a key. */
  predicate IsChild(keys: set<Name>, p: Name, c: Name) {
    c in keys && p < c && forall j :: |p| < j < |c| ==> c[..j] !in keys
  }

  lemma ParentLengthUnique(keys: set<Name>, n: Name, r: int)
    requires -1 <= r < |n|
    requires r >= 0 ==> n[..r] in keys
    requires forall j :: r < j < |n| ==> n[..j] !in keys
    ensures ParentLength(keys, n, |n|) == r
  {
  }

  lemma {:induction false} ParentLengthOfPrefix(keys: set<Name>, n: Name, k: nat, j: nat)
    requires j <= k <= |n|
    ensures ParentLength(keys, n[..k], j) == ParentLength(keys, n, j)
  {
    if j > 0 {
      assert n[..k][..j - 1] == n[..j - 1];
      ParentLengthOfPrefix(keys, n, k, j - 1);
    }
  }

  /** Children are exactly the keys whose longest proper prefix in the table is p. */
  lemma ChildMeansParent(keys: set<Name>, p: Name, c: Name)
    requires p in keys && c in keys
    ensures IsChild(keys, p, c) <==> p < c && ParentLength(keys, c, |c|) == |p|
    ensures IsChild(keys, p, c) <==> ParentLength(keys, c, |c|) >= 0 && c[..ParentLength(keys, c, |c|)] == p
  {
    if IsChild(keys, p, c) {
      assert c[..|p|] == p;
      ParentLengthUnique(keys, c, |p|);
    }
  }

  /** For a name p that is not a key, the keys below p that share p's parent are those that p would adopt. */
  lemma ChildrenOfAbsentName(keys: set<Name>, p: Name, c: Name)
    requires p !in keys && c in keys && p < c
    ensures IsChild(keys, p, c) <==> ParentLength(keys, c, |c|) == ParentLength(keys, p, |p|)
  {
    var k := ParentLength(keys, p, |p|);
    assert forall j {:trigger p[..j]} {:trigger c[..j]} :: 0 <= j <= |p| ==> c[..j] == p[..j];
    if IsChild(keys, p, c) {
      assert c[..|p|] == p;
      assert forall j :: k < j < |p| ==> c[..j] == p[..j] && p[..j] !in keys;
      ParentLengthUnique(keys, c, k);
    }
  }

  /** A new key p becomes the parent of the keys below it that had p's own parent. */
  lemma ParentAfterInsert(keys: set<Name>, p: Name, n: Name)
    requires p !in keys && n != p
    ensures var k := ParentLength(keys, n, |n|);
            ParentLength(keys + {p}, n, |n|) == if p < n && k == ParentLength(keys, p, |p|) then |p| else k
  {
    var k, kp := ParentLength(keys, n, |n|), ParentLength(keys, p, |p|);
    assert forall j {:trigger p[..j]} {:trigger n[..j]} :: p < n && 0 <= j <= |p| ==> n[..j] == p[..j];
    if p < n && k < |p| {
      assert k >= 0 ==> n[..k] == p[..k];
      assert forall j :: k < j < |p| ==> n[..j] == p[..j] && p[..j] !in keys;
      ParentLengthUnique(keys, p, k);
    }
    if p < n && k == kp {
      assert n[..|p|] == p;
      ParentLengthUnique(keys + {p}, n, |p|);
    } else {
      assert forall j :: k < j < |n| ==> n[..j] != p;
      ParentLengthUnique(keys + {p}, n, k);
    }
  }

  /** The keys strictly below a name: the measure of every walk down the tree. */
  function Under(keys: set<Name>, p: Name): set<Name> {
    set n | n in keys && p < n
  }

  lemma UnderShrinks(keys: set<Name>, p: Name, c: Name)
    requires c in keys && p < c
    ensures Under(keys, c) < Under(keys, p)
  {
    assert c in Under(keys, p) && c !in Under(keys, c);
  }

  // ----- insertion and erasure -----

  function WrappingInc(n: nat): nat {
    if n == UINT64 - 1 then 0 else n + 1
  }

  function WrappingDec(n: nat): nat {
    if n == 0 then UINT64 - 1 else n - 1
  }

  /** A known face and origin gets the new flags, cost and expiry, and the capture counter stays as it is. */
  function InsertIntoEntry(e: Entry, r: Route): Entry {
    var i := Position(e.routes, r);
    if i < |e.routes| then
      e.(routes := e.routes[i := e.routes[i].(flags := r.flags, cost := r.cost, expires := r.expires)])
    else
      e.(routes := e.routes + [r], nCaptures := if r.IsCapture() then WrappingInc(e.nCaptures) else e.nCaptures)
  }

  function Inserted(t: Table, p: Name, r: Route): Table {
    t[p := InsertIntoEntry(if p in t then t[p] else Entry([], [], 0), r)]
  }

  function EraseFromEntry(e: Entry, i: nat): Entry
    requires i < |e.routes|
  {
    Entry(e.routes[..i] + e.routes[i + 1..], e.inherited,
          if e.routes[i].IsCapture() then WrappingDec(e.nCaptures) else e.nCaptures)
  }

  /** An entry without routes leaves the table; an unknown name or route changes nothing. */
  function Erased(t: Table, p: Name, r: Route): Table {
    if p !in t || Position(t[p].routes, r) == |t[p].routes| then t
    else
      var e := EraseFromEntry(t[p], Position(t[p].routes, r));
      if |e.routes| == 0 then t - {p} else t[p := e]
  }

  /** The RIB after an update: onFibUpdateSuccess up to the inherited routes. */
  function TableUpdated(t: Table, u: RibUpdate): Table {
    if u.action == Register then Inserted(t, u.name, u.route) else Erased(t, u.name, u.route)
  }

  // ----- inherited records -----

  /** Erase the first record for the face. */
  function RemoveFirst(records: seq<Route>, f: nat): seq<Route> {
    if |records| == 0 then []
    else if records[0].faceId == f then records[1..]
    else [records[0]] + RemoveFirst(records[1..], f)
  }

  /** One precalculated change of an entry's inherited routes; face removals carry none. */
  function ApplyRecord(t: Table, u: RibUpdate): Table {
    if u.name !in t then t
    else
      var e := t[u.name];
      match u.action
      case Register => t[u.name := e.(inherited := e.inherited + [u.route])]
      case Unregister => t[u.name := e.(inherited := RemoveFirst(e.inherited, u.route.faceId))]
      case RemoveFace => t
  }

  function ApplyRecords(t: Table, us: seq<RibUpdate>): Table {
    if |us| == 0 then t else ApplyRecords(ApplyRecord(t, us[0]), us[1..])
  }

  /** Every change finds its entry, and every removal finds a record. */
  predicate Applicable(t: Table, us: seq<RibUpdate>) {
    |us| == 0 ||
    (us[0].name in t && (us[0].action == Unregister ==> t[us[0].name].HasRecord(us[0].route.faceId)) &&
     Applicable(ApplyRecord(t, us[0]), us[1..]))
  }

  // ----- inheritance -----

  datatype Scan = Found(route: Route) | Blocked | Through

  /**
   * Look for a child-inherit route on face f among the entries at the prefixes of n of length k-1 down to lo.
   * The nearest one wins; an entry with capture and no such route stops the search.
   */
  function ScanUp(t: Table, n: Name, lo: nat, k: nat, f: nat): Scan
    requires k <= |n|
    decreases k
  {
    if k <= lo then Through
    else
      var a := n[..k - 1];
      if a !in t then ScanUp(t, n, lo, k - 1, f)
      else if FindInherit(t[a].routes, f).Some? then Found(FindInherit(t[a].routes, f).value)
      else if t[a].HasCapture() then Blocked
      else ScanUp(t, n, lo, k - 1, f)
  }

  /** The route on face f that n inherits from its ancestors, own flags of n aside. */
  function Nearest(t: Table, n: Name, f: nat): Option<Route> {
    match ScanUp(t, n, 0, |n|, f)
    case Found(r) => Some(r)
    case _ => None
  }

  /** n has an entry that inherits a route on face f. */
  predicate Inherits(t: Table, n: Name, f: nat) {
    n in t && !t[n].HasFace(f) && !t[n].HasCapture() && Nearest(t, n, f).Some?
  }

  /** What the FIB has to hold for (n, f): the own route, or else the nearest unblocked child-inherit ancestor route. */
  function Wanted(t: Table, n: Name, f: nat): Option<nat> {
    if n !in t then None
    else if t[n].HasFace(f) then Some(FindFace(t[n].routes, f).value.cost)
    else if Inherits(t, n, f) then Some(Nearest(t, n, f).value.cost)
    else None
  }

  type Fib = map<(Name, nat), nat>

  function At(fib: Fib, n: Name, f: nat): Option<nat> {
    if (n, f) in fib then Some(fib[(n, f)]) else None
  }

  ghost predicate Agrees(fib: Fib, t: Table) {
    forall n: Name, f: nat :: At(fib, n, f) == Wanted(t, n, f)
  }

  ghost predicate RecordsMatch(t: Table) {
    forall n, f: nat :: n in t ==> (t[n].HasRecord(f) <==> Inherits(t, n, f))
  }

  // ----- facts about ScanUp -----

  lemma {:induction false} ScanSplit(t: Table, n: Name, lo: nat, m: nat, k: nat, f: nat)
    requires lo <= m <= k <= |n|
    ensures ScanUp(t, n, lo, k, f) ==
            if ScanUp(t, n, m, k, f) == Through then ScanUp(t, n, lo, m, f) else ScanUp(t, n, m, k, f)
    decreases k
  {
    if k > m {
      ScanSplit(t, n, lo, m, k - 1, f);
    }
  }

  /** Equal as a source of inheritance. */
  predicate SameSources(a: Entry, b: Entry) {
    a.routes == b.routes && a.HasCapture() == b.HasCapture()
  }

  /** ScanUp reads only the routes and the capture state at the prefixes it visits. */
  lemma {:induction false} ScanFrame(t: Table, n: Name, u: Table, o: Name, lo: nat, k: nat, f: nat)
    requires k <= |n| && k <= |o|
    requires forall j :: lo <= j < k ==>
               n[..j] == o[..j] && (n[..j] in t <==> n[..j] in u) && (n[..j] in t ==> SameSources(t[n[..j]], u[n[..j]]))
    ensures ScanUp(t, n, lo, k, f) == ScanUp(u, o, lo, k, f)
    decreases k
  {
    if k > lo {
      ScanFrame(t, n, u, o, lo, k - 1, f);
    }
  }

  /** One step of the walk: from the entries above length k to the next entry, which has length l. */
  lemma ScanStep(t: Table, n: Name, l: nat, k: nat, f: nat)
    requires l < k <= |n| && n[..l] in t && forall j :: l < j < k ==> n[..j] !in t
    ensures ScanUp(t, n, l, |n|, f) ==
            if ScanUp(t, n, k, |n|, f) != Through then ScanUp(t, n, k, |n|, f)
            else if FindInherit(t[n[..l]].routes, f).Some? then Found(FindInherit(t[n[..l]].routes, f).value)
            else if t[n[..l]].HasCapture() then Blocked else Through
  {
    ScanSplit(t, n, l, k, |n|, f);
    ScanSplit(t, n, l, l + 1, k, f);
    assert Open(t, n, l + 1, k, f);
    OpenMeansThrough(t, n, l + 1, k, f);
  }

  /** The end of the walk: no entry is left below length k. */
  lemma ScanEnd(t: Table, n: Name, k: nat, f: nat)
    requires k <= |n| && forall j :: 0 <= j < k ==> n[..j] !in t
    ensures ScanUp(t, n, 0, |n|, f) == ScanUp(t, n, k, |n|, f)
  {
    ScanSplit(t, n, 0, k, |n|, f);
    assert Open(t, n, 0, k, f);
    OpenMeansThrough(t, n, 0, k, f);
  }

  /** No entry at the prefixes of length lo..k-1 stops or answers a search on face f. */
  predicate Open(t: Table, n: Name, lo: nat, k: nat, f: nat)
    requires k <= |n|
  {
    forall j :: lo <= j < k && n[..j] in t ==> !t[n[..j]].HasChildInherit(f) && !t[n[..j]].HasCapture()
  }

  lemma {:induction false} OpenMeansThrough(t: Table, n: Name, lo: nat, k: nat, f: nat)
    requires k <= |n|
    ensures ScanUp(t, n, lo, k, f) == Through <==> Open(t, n, lo, k, f)
    decreases k
  {
    if k > lo {
      OpenMeansThrough(t, n, lo, k - 1, f);
      var a := n[..k - 1];
      assert Open(t, n, lo, k, f) <==>
        Open(t, n, lo, k - 1, f) && (a in t ==> !t[a].HasChildInherit(f) && !t[a].HasCapture());
    }
  }

  /**
   * The declarative reading of Nearest: the answer comes from some proper prefix of n that is in the table and
   * has a child-inherit route on the face, with nothing that blocks or answers between that prefix and n.
   */
  lemma {:induction false} NearestMeaning(t: Table, n: Name, k: nat, f: nat, r: Route)
    requires k <= |n|
    ensures ScanUp(t, n, 0, k, f) == Found(r) <==>
              exists a :: 0 <= a < k && n[..a] in t && FindInherit(t[n[..a]].routes, f) == Some(r) &&
                Open(t, n, a + 1, k, f)
    decreases k
  {
    if k > 0 {
      NearestMeaning(t, n, k - 1, f, r);
      var p := n[..k - 1];
      if ScanUp(t, n, 0, k, f) == Found(r) {
        if p in t && t[p].HasChildInherit(f) {
          assert Open(t, n, k, k, f);
        } else {
          var a :| 0 <= a < k - 1 && n[..a] in t && FindInherit(t[n[..a]].routes, f) == Some(r) &&
            Open(t, n, a + 1, k - 1, f);
          assert Open(t, n, a + 1, k, f);
        }
      }
      if a :| 0 <= a < k && n[..a] in t && FindInherit(t[n[..a]].routes, f) == Some(r) && Open(t, n, a + 1, k, f) {
        if a < k - 1 {
          assert Open(t, n, a + 1, k - 1, f);
          assert p in t ==> !t[p].HasChildInherit(f) && !t[p].HasCapture();
        }
      }
    }
  }
}
