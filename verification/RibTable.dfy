/** The RIB: name tree, face index and route count (rib.cpp, rib-entry.cpp). */
module RibTable {
  import opened Wrappers
  import opened Names
  import opened Routes
  import opened RibModel

  function RemoveAll<T(==)>(s: seq<T>, x: T): (r: seq<T>)
    ensures forall y | y in r :: y in s && y != x
    ensures forall y | y in s && y != x :: y in r
    ensures NoDuplicates(s) ==> NoDuplicates(r)
  {
    if |s| == 0 then []
    else
      var rest := RemoveAll(s[1..], x);
      assert NoDuplicates(s) ==> NoDuplicates(s[1..]) && s[0] !in s[1..];
      if s[0] == x then rest else [s[0]] + rest
  }

  ghost predicate NoDuplicates<T>(s: seq<T>) {
    forall i, j :: 0 <= i < j < |s| ==> s[i] != s[j]
  }

  class RibEntry {
    var name: Name
    var children: seq<RibEntry>
    var parent: RibEntry?
    var routes: seq<Route>
    var inheritedRoutes: seq<Route>
    var nRoutesWithCaptureSet: nat

    constructor (prefix: Name)
      ensures name == prefix && children == [] && parent == null
      ensures routes == [] && inheritedRoutes == [] && nRoutesWithCaptureSet == 0
    {
      name := prefix;
      children, parent := [], null;
      routes, inheritedRoutes, nRoutesWithCaptureSet := [], [], 0;
    }

    ghost function View(): Entry
      reads this
    {
      Entry(routes, inheritedRoutes, nRoutesWithCaptureSet)
    }

    /** The position of the route with the same face and origin, or the end of the list. */
    method FindRoute(route: Route) returns (i: nat)
      ensures i == Position(routes, route)
    {
      i := 0;
      while i < |routes|
        invariant i <= |routes|
        invariant Position(routes, route) == i + Position(routes[i..], route)
      {
        if routes[i].SameFaceAndOrigin(route) {
          return;
        }
        i := i + 1;
      }
    }

    /** A route with a new face and origin is appended and counted; any other is refused. */
    method InsertRoute(route: Route) returns (inserted: bool)
      modifies this`routes, this`nRoutesWithCaptureSet
      ensures inserted <==> Position(old(routes), route) == |old(routes)|
      ensures routes == if inserted then old(routes) + [route] else old(routes)
      ensures nRoutesWithCaptureSet ==
              if inserted && route.IsCapture() then WrappingInc(old(nRoutesWithCaptureSet))
              else old(nRoutesWithCaptureSet)
    {
      var it := FindRoute(route);
      if it == |routes| {
        if route.IsCapture() {
          nRoutesWithCaptureSet := WrappingInc(nRoutesWithCaptureSet);
        }
        routes := routes + [route];
        inserted := true;
      } else {
        inserted := false;
      }
    }

    /** What Rib::insert does to an entry: add a new route, or overwrite flags, cost and expiry of a known one. */
    method PutRoute(route: Route) returns (isNew: bool)
      modifies this`routes, this`nRoutesWithCaptureSet
      ensures View() == InsertIntoEntry(old(View()), route)
      ensures isNew <==> Position(old(routes), route) == |old(routes)|
    {
      var it := FindRoute(route);
      if it == |routes| {
        isNew := InsertRoute(route);
      } else {
        routes := routes[it := routes[it].(flags := route.flags, cost := route.cost, expires := route.expires)];
        isNew := false;
      }
    }

    /** Erase by position; the end position is ignored. */
    method EraseRouteAt(i: nat)
      requires i <= |routes|
      modifies this`routes, this`nRoutesWithCaptureSet
      ensures routes == if i < |old(routes)| then old(routes)[..i] + old(routes)[i + 1..] else old(routes)
      ensures nRoutesWithCaptureSet ==
              if i < |old(routes)| && old(routes)[i].IsCapture() then WrappingDec(old(nRoutesWithCaptureSet))
              else old(nRoutesWithCaptureSet)
    {
      if i != |routes| {
        if routes[i].IsCapture() {
          nRoutesWithCaptureSet := WrappingDec(nRoutesWithCaptureSet);
        }
        routes := routes[..i] + routes[i + 1..];
      }
    }

    method HasFaceId(faceId: nat) returns (b: bool)
      ensures b <==> View().HasFace(faceId)
    {
      var i := 0;
      while i < |routes|
        invariant i <= |routes|
        invariant FindFace(routes, faceId) == FindFace(routes[i..], faceId)
      {
        if routes[i].faceId == faceId {
          return true;
        }
        i := i + 1;
      }
      return false;
    }

    method HasChildInheritOnFaceId(faceId: nat) returns (b: bool)
      ensures b <==> View().HasChildInherit(faceId)
    {
      var i := 0;
      while i < |routes|
        invariant i <= |routes|
        invariant FindInherit(routes, faceId) == FindInherit(routes[i..], faceId)
      {
        if routes[i].faceId == faceId && routes[i].IsChildInherit() {
          return true;
        }
        i := i + 1;
      }
      return false;
    }

    predicate HasCapture()
      reads this
    {
      nRoutesWithCaptureSet > 0
    }

    method HasInheritedRoute(route: Route) returns (b: bool)
      ensures b <==> View().HasRecord(route.faceId)
    {
      var i := 0;
      while i < |inheritedRoutes|
        invariant i <= |inheritedRoutes|
        invariant FindFace(inheritedRoutes, route.faceId) == FindFace(inheritedRoutes[i..], route.faceId)
      {
        if inheritedRoutes[i].faceId == route.faceId {
          return true;
        }
        i := i + 1;
      }
      return false;
    }

    /** The assertion in the source, that the child has no parent, is the first precondition. */
    method AddChild(child: RibEntry)
      requires child.parent == null
      modifies this`children, child`parent
      ensures children == old(children) + [child] && child.parent == this
    {
      child.parent := this;
      children := children + [child];
    }

    /** The assertion in the source, that the child is a child of this entry, is the precondition. */
    method RemoveChild(child: RibEntry)
      requires child.parent == this
      modifies this`children, child`parent
      ensures children == RemoveAll(old(children), child) && child.parent == null
    {
      child.parent := null;
      children := RemoveAll(children, child);
    }

    method AddInheritedRoute(route: Route)
      modifies this`inheritedRoutes
      ensures inheritedRoutes == old(inheritedRoutes) + [route]
    {
      inheritedRoutes := inheritedRoutes + [route];
    }

    /** Erases the first record for the face; there has to be one, the source erases the found position unchecked. */
    method RemoveInheritedRoute(route: Route)
      requires View().HasRecord(route.faceId)
      modifies this`inheritedRoutes
      ensures inheritedRoutes == RemoveFirst(old(inheritedRoutes), route.faceId)
    {
      var i := 0;
      while inheritedRoutes[i].faceId != route.faceId
        invariant i < |inheritedRoutes|
        invariant FindFace(inheritedRoutes[i..], route.faceId).Some?
        invariant RemoveFirst(inheritedRoutes, route.faceId) ==
                  inheritedRoutes[..i] + RemoveFirst(inheritedRoutes[i..], route.faceId)
        decreases |inheritedRoutes| - i
      {
        i := i + 1;
      }
      inheritedRoutes := inheritedRoutes[..i] + inheritedRoutes[i + 1..];
    }

    /** The cheapest route on the face; the earliest of the cheapest when several tie. */
    method GetRouteWithLowestCostByFaceId(faceId: nat) returns (candidate: Option<Route>)
      ensures candidate.None? <==> !View().HasFace(faceId)
      ensures candidate.Some? ==>
                candidate.value in routes && candidate.value.faceId == faceId &&
                forall r :: r in routes && r.faceId == faceId ==> candidate.value.cost <= r.cost
    {
      FindFaceMeaning(routes, faceId);
      candidate := None;
      var i := 0;
      while i < |routes|
        invariant i <= |routes|
        invariant candidate.None? <==> forall j :: 0 <= j < i ==> routes[j].faceId != faceId
        invariant candidate.Some? ==>
                    candidate.value in routes && candidate.value.faceId == faceId &&
                    forall j :: 0 <= j < i && routes[j].faceId == faceId ==> candidate.value.cost <= routes[j].cost
      {
        if routes[i].faceId == faceId {
          if candidate.None? {
            candidate := Some(routes[i]);
          } else if routes[i].cost < candidate.value.cost {
            candidate := Some(routes[i]);
          }
        }
        i := i + 1;
      }
    }

    /** The cheapest child-inherit route on the face. */
    method GetRouteWithLowestCostAndChildInheritByFaceId(faceId: nat) returns (candidate: Option<Route>)
      ensures candidate.None? <==> !View().HasChildInherit(faceId)
      ensures candidate.Some? ==>
                candidate.value in routes && candidate.value.faceId == faceId && candidate.value.IsChildInherit() &&
                forall r :: r in routes && r.faceId == faceId && r.IsChildInherit() ==> candidate.value.cost <= r.cost
    {
      FindInheritMeaning(routes, faceId);
      candidate := None;
      var i := 0;
      while i < |routes|
        invariant i <= |routes|
        invariant candidate.None? <==>
                  forall j :: 0 <= j < i ==> !(routes[j].faceId == faceId && routes[j].IsChildInherit())
        invariant candidate.Some? ==>
                    candidate.value in routes && candidate.value.faceId == faceId && candidate.value.IsChildInherit() &&
                    forall j :: 0 <= j < i && routes[j].faceId == faceId && routes[j].IsChildInherit() ==>
                      candidate.value.cost <= routes[j].cost
      {
        if routes[i].faceId == faceId && routes[i].IsChildInherit() {
          if candidate.None? {
            candidate := Some(routes[i]);
          } else if routes[i].cost < candidate.value.cost {
            candidate := Some(routes[i]);
          }
        }
        i := i + 1;
      }
    }
  }

  // ----- the ordered table -----

  ghost predicate InOrder(names: seq<Name>, i: nat, j: nat) {
    i < j < |names| ==> Less(names[i], names[j])
  }

  /** Strictly ascending; InOrder names a pair, so that proofs look at the order only where they ask for it. */
  ghost predicate Sorted(names: seq<Name>) {
    forall i: nat, j: nat {:trigger InOrder(names, i, j)} :: InOrder(names, i, j)
  }

  /** std::map::lower_bound on the ordered keys. */
  function LowerBound(names: seq<Name>, p: Name): (i: nat)
    ensures i <= |names|
    ensures forall j :: 0 <= j < i ==> Less(names[j], p)
    ensures i < |names| ==> !Less(names[i], p)
  {
    if |names| == 0 || !Less(names[0], p) then 0 else 1 + LowerBound(names[1..], p)
  }

  lemma LowerBoundSplits(names: seq<Name>, p: Name)
    requires Sorted(names)
    ensures var i := LowerBound(names, p);
            forall j :: i <= j < |names| && names[j] != p ==> Less(p, names[j])
    ensures p in names <==> LowerBound(names, p) < |names| && names[LowerBound(names, p)] == p
  {
    var i := LowerBound(names, p);
    if i < |names| {
      LessTotal(names[i], p);
      forall j | i < j < |names|
        ensures Less(p, names[j])
      {
        assert InOrder(names, i, j);
        if names[i] != p {
          LessTransitive(p, names[i], names[j]);
        }
      }
    }
    LessTotal(p, p);
  }

  /** The keys that extend p, in table order. */
  function Extensions(names: seq<Name>, p: Name): seq<Name> {
    if |names| == 0 then []
    else if p <= names[0] then [names[0]] + Extensions(names[1..], p)
    else Extensions(names[1..], p)
  }

  lemma {:induction false} ExtensionsSlice(names: seq<Name>, p: Name, lo: nat, hi: nat)
    requires lo <= hi <= |names|
    requires forall j :: 0 <= j < |names| ==> (p <= names[j] <==> lo <= j < hi)
    ensures Extensions(names, p) == names[lo..hi]
  {
    if |names| > 0 {
      if lo > 0 {
        ExtensionsSlice(names[1..], p, lo - 1, hi - 1);
      } else if hi > 0 {
        ExtensionsSlice(names[1..], p, 0, hi - 1);
        assert names[0..hi] == [names[0]] + names[1..][0..hi - 1];
      } else {
        ExtensionsSlice(names[1..], p, 0, 0);
      }
    }
  }

  /** In table order the extensions of a key start at the key and end at the first key it is not a prefix of. */
  lemma ExtensionsAreTheScan(names: seq<Name>, p: Name, i: nat, k: nat)
    requires Sorted(names) && i < k <= |names| && names[i] == p
    requires forall j :: i <= j < k ==> p <= names[j]
    requires k < |names| ==> !(p <= names[k])
    ensures |Extensions(names, p)| == k - i
    ensures forall j :: 0 <= j < k - i ==> Extensions(names, p)[j] == names[i + j]
  {
    forall j | 0 <= j < |names|
      ensures p <= names[j] <==> i <= j < k
    {
      if j < i {
        assert InOrder(names, j, i);
        LessTotal(names[j], p);
        if p <= names[j] && p != names[j] {
          PrefixIsLess(p, names[j]);
        }
      } else if j >= k {
        assert InOrder(names, i, k) && InOrder(names, k, j);
        LessTotal(names[k], p);
        if p <= names[j] && j > k {
          ExtensionsContiguous(p, names[k], names[j]);
        }
      }
    }
    ExtensionsSlice(names, p, i, k);
  }

  lemma {:induction false} ExtensionsMembers(names: seq<Name>, p: Name, n: Name)
    ensures n in Extensions(names, p) <==> n in names && p <= n
  {
    if |names| > 0 {
      ExtensionsMembers(names[1..], p, n);
    }
  }

  lemma {:induction false} ExtensionsDistinct(names: seq<Name>, p: Name)
    requires Sorted(names)
    ensures NoDuplicates(Extensions(names, p))
  {
    if |names| > 0 {
      forall j: nat, k: nat
        ensures InOrder(names[1..], j, k)
      {
        assert InOrder(names, j + 1, k + 1);
      }
      ExtensionsDistinct(names[1..], p);
      ExtensionsMembers(names[1..], p, names[0]);
      if names[0] in names[1..] {
        var j :| 1 <= j < |names| && names[j] == names[0];
        assert InOrder(names, 0, j);
        LessTotal(names[0], names[0]);
      }
    }
  }

  // ----- the number of routes -----

  function TotalRoutes(names: seq<Name>, t: Table): nat {
    if |names| == 0 then 0
    else (if names[0] in t then |t[names[0]].routes| else 0) + TotalRoutes(names[1..], t)
  }

  lemma {:induction false} TotalSplit(a: seq<Name>, b: seq<Name>, t: Table)
    ensures TotalRoutes(a + b, t) == TotalRoutes(a, t) + TotalRoutes(b, t)
  {
    if |a| == 0 {
      assert a + b == b;
    } else {
      assert (a + b)[1..] == a[1..] + b;
      TotalSplit(a[1..], b, t);
    }
  }

  lemma {:induction false} TotalFrame(names: seq<Name>, t: Table, u: Table)
    requires forall n :: n in names ==> (n in t <==> n in u) && (n in t ==> |t[n].routes| == |u[n].routes|)
    ensures TotalRoutes(names, t) == TotalRoutes(names, u)
  {
    if |names| > 0 {
      TotalFrame(names[1..], t, u);
    }
  }

  /** Changing the routes at the key in position i changes the total by the difference. */
  lemma TotalAt(names: seq<Name>, i: nat, t: Table)
    requires i < |names| && names[i] in t
    ensures TotalRoutes(names, t) == TotalRoutes(names[..i], t) + |t[names[i]].routes| + TotalRoutes(names[i + 1..], t)
  {
    assert names == names[..i] + names[i..];
    TotalSplit(names[..i], names[i..], t);
  }

  // ----- the tree of entries -----

  /** Children lists without repetition are exactly the inverse of the parent pointers within a set of entries. */
  ghost predicate LinksOk(entries: set<RibEntry>)
    reads entries
  {
    (forall e {:trigger e.children} | e in entries :: NoDuplicates(e.children)) &&
    (forall e, c {:trigger c in e.children} | e in entries && c in e.children :: c in entries && c.parent == e) &&
    (forall e {:trigger e.parent} | e in entries && e.parent != null :: e.parent in entries && e in e.parent.children)
  }

  /** Move a child from one parent, if any, to another, if any, with the assertions of addChild and removeChild met. */
  method MoveChild(child: RibEntry, from: RibEntry?, to: RibEntry?, ghost entries: set<RibEntry>)
    requires LinksOk(entries) && child in entries && child.parent == from
    requires to != null ==> to in entries
    modifies entries`children, child`parent
    ensures LinksOk(entries) && child.parent == to
    ensures from != null && from != to ==> from.children == RemoveAll(old(from.children), child)
  {
    if from != null {
      from.RemoveChild(child);
    }
    assert child.parent == null && forall e | e in entries :: child !in e.children;
    if to != null {
      to.AddChild(child);
    }
  }

  lemma FindFaceAfterUpdate(routes: seq<Route>, i: nat, r: Route, f: nat)
    requires i < |routes| && r.faceId == routes[i].faceId
    ensures FindFace(routes[i := r], f).Some? <==> FindFace(routes, f).Some?
  {
    FindFaceMeaning(routes, f);
    FindFaceMeaning(routes[i := r], f);
    if j :| 0 <= j < |routes| && routes[j].faceId == f {
      assert routes[i := r][j].faceId == f;
    }
    var updated := routes[i := r];
    if j :| 0 <= j < |updated| && updated[j].faceId == f {
      assert routes[j].faceId == f;
    }
  }

  /** The total after the entry of one key changed. */
  lemma TotalAfterChange(names: seq<Name>, p: Name, t: Table, u: Table)
    requires Sorted(names) && p in names && p in t && p in u
    requires forall n :: n != p ==> (n in t <==> n in u) && (n in t ==> t[n] == u[n])
    ensures TotalRoutes(names, u) == TotalRoutes(names, t) - |t[p].routes| + |u[p].routes|
  {
    var i :| 0 <= i < |names| && names[i] == p;
    TotalAt(names, i, t);
    TotalAt(names, i, u);
    forall j | 0 <= j < |names| && j != i
      ensures names[j] != p
    {
      assert InOrder(names, i, j) && InOrder(names, j, i);
      LessTotal(p, p);
    }
    TotalFrame(names[..i], t, u);
    TotalFrame(names[i + 1..], t, u);
  }

  /** An entry is listed under a face exactly when it is in the table and has a route on the face. */
  ghost predicate IndexOk(faceMap: map<nat, seq<RibEntry>>, table: map<Name, RibEntry>, t: Table) {
    t.Keys == table.Keys &&
    (forall f, e {:trigger e in faceMap[f]} :: f in faceMap && e in faceMap[f] ==> e in table.Values) &&
    (forall n, f: nat {:trigger t[n].HasFace(f)} ::
      n in table ==> (t[n].HasFace(f) <==> f in faceMap && table[n] in faceMap[f]))
  }

  /** Every entry has a route, and no two with the same face and origin. */
  ghost predicate RoutesOk(t: Table) {
    forall n :: n in t ==> |t[n].routes| > 0 && UniqueRoutes(t[n].routes)
  }

  /** The face index and the route count that go with a table. */
  ghost predicate BooksOk(names: seq<Name>, table: map<Name, RibEntry>, faceMap: map<nat, seq<RibEntry>>, nItems: nat,
                          t: Table) {
    RoutesOk(t) && IndexOk(faceMap, table, t) && nItems == TotalRoutes(names, t)
  }

  /** The books depend on the routes only. */
  lemma BooksReadRoutes(names: seq<Name>, table: map<Name, RibEntry>, faceMap: map<nat, seq<RibEntry>>, nItems: nat,
                        t: Table, u: Table)
    requires BooksOk(names, table, faceMap, nItems, t)
    requires t.Keys == u.Keys && forall n :: n in t ==> t[n].routes == u[n].routes
    ensures BooksOk(names, table, faceMap, nItems, u)
  {
    forall n, f: nat | n in table
      ensures u[n].HasFace(f) <==> f in faceMap && table[n] in faceMap[f]
    {
      assert t[n].HasFace(f) <==> f in faceMap && table[n] in faceMap[f];
    }
    TotalFrame(names, t, u);
  }

  function AddToFace<T>(faces: map<nat, seq<T>>, f: nat, e: T): map<nat, seq<T>> {
    faces[f := (if f in faces then faces[f] else []) + [e]]
  }

  lemma IndexAfterInsert(faces: map<nat, seq<RibEntry>>, table: map<Name, RibEntry>, t: Table, p: Name, r: Route)
    requires IndexOk(faces, table, t) && p in table
    requires forall n | n in table && n != p :: table[n] != table[p]
    ensures IndexOk(if Position(t[p].routes, r) < |t[p].routes| then faces else AddToFace(faces, r.faceId, table[p]),
                    table, Inserted(t, p, r))
  {
    var faces' := if Position(t[p].routes, r) < |t[p].routes| then faces else AddToFace(faces, r.faceId, table[p]);
    var u := Inserted(t, p, r);
    forall n, f: nat | n in table
      ensures u[n].HasFace(f) <==> f in faces' && table[n] in faces'[f]
    {
      HasFaceAfterInsert(t[p], r, f);
      assert t[n].HasFace(f) <==> f in faces && table[n] in faces[f];
    }
  }

  lemma BooksAfterInsert(names: seq<Name>, table: map<Name, RibEntry>, faces: map<nat, seq<RibEntry>>, nItems: nat,
                         t: Table, p: Name, r: Route)
    requires BooksOk(names, table, faces, nItems, t) && Sorted(names) && p in names && p in table
    requires forall n | n in table && n != p :: table[n] != table[p]
    ensures Position(t[p].routes, r) < |t[p].routes| ==> BooksOk(names, table, faces, nItems, Inserted(t, p, r))
    ensures Position(t[p].routes, r) == |t[p].routes| ==>
              BooksOk(names, table, AddToFace(faces, r.faceId, table[p]), nItems + 1, Inserted(t, p, r))
  {
    RoutesAfterInsert(t, p, r);
    IndexAfterInsert(faces, table, t, p, r);
    TotalAfterChange(names, p, t, Inserted(t, p, r));
  }

  function InsertName(names: seq<Name>, p: Name): seq<Name> {
    var i := LowerBound(names, p);
    names[..i] + [p] + names[i..]
  }

  lemma SortedAfterInsert(names: seq<Name>, p: Name)
    requires Sorted(names) && p !in names
    ensures Sorted(InsertName(names, p))
    ensures forall n :: n in InsertName(names, p) <==> n in names || n == p
  {
    var i := LowerBound(names, p);
    var result := InsertName(names, p);
    LowerBoundSplits(names, p);
    forall j: nat, k: nat
      ensures InOrder(result, j, k)
    {
      if j < k < |result| && j != i && k != i {
        assert InOrder(names, if j < i then j else j - 1, if k < i then k else k - 1);
      }
    }
    forall n
      ensures n in result <==> n in names || n == p
    {
      assert result[i] == p && names == names[..i] + names[i..];
    }
  }

  lemma BooksAfterNewEntry(names: seq<Name>, table: map<Name, RibEntry>, faces: map<nat, seq<RibEntry>>, nItems: nat,
                           t: Table, p: Name, r: Route, entry: RibEntry)
    requires BooksOk(names, table, faces, nItems, t) && p !in table && p !in names && entry !in table.Values
    ensures BooksOk(InsertName(names, p), table[p := entry], AddToFace(faces, r.faceId, entry), nItems + 1,
                    Inserted(t, p, r))
  {
    RoutesAfterInsert(t, p, r);
    IndexAfterNewEntry(table, faces, t, p, r, entry);
    TotalAfterNewEntry(names, t, p, r);
  }

  lemma IndexAfterNewEntry(table: map<Name, RibEntry>, faces: map<nat, seq<RibEntry>>, t: Table, p: Name, r: Route,
                           entry: RibEntry)
    requires IndexOk(faces, table, t) && p !in table && entry !in table.Values
    ensures IndexOk(AddToFace(faces, r.faceId, entry), table[p := entry], Inserted(t, p, r))
  {
    var u, table', faces' := Inserted(t, p, r), table[p := entry], AddToFace(faces, r.faceId, entry);
    assert forall n | n in table :: table'[n] == table[n] && u[n] == t[n];
    ValuesAfterInsert(table, p, entry);
    forall n, f: nat | n in table'
      ensures u[n].HasFace(f) <==> f in faces' && table'[n] in faces'[f]
    {
      if n == p {
        HasFaceAfterInsert(Entry([], [], 0), r, f);
      } else {
        assert t[n].HasFace(f) <==> f in faces && table[n] in faces[f];
      }
    }
  }

  lemma TotalAfterNewEntry(names: seq<Name>, t: Table, p: Name, r: Route)
    requires p !in t && p !in names
    ensures TotalRoutes(InsertName(names, p), Inserted(t, p, r)) == TotalRoutes(names, t) + 1
  {
    var u, names' := Inserted(t, p, r), InsertName(names, p);
    var i := LowerBound(names, p);
    TotalAt(names', i, u);
    assert names'[..i] == names[..i] && names'[i + 1..] == names[i..] && names == names[..i] + names[i..];
    TotalSplit(names[..i], names[i..], u);
    TotalFrame(names, t, u);
  }

  function RemoveName(names: seq<Name>, p: Name): seq<Name> {
    var i := LowerBound(names, p);
    if i < |names| then names[..i] + names[i + 1..] else names
  }

  lemma SortedAfterRemove(names: seq<Name>, p: Name)
    requires Sorted(names) && p in names
    ensures Sorted(RemoveName(names, p))
    ensures forall n :: n in RemoveName(names, p) <==> n in names && n != p
  {
    var i := LowerBound(names, p);
    var result := RemoveName(names, p);
    LowerBoundSplits(names, p);
    forall j: nat, k: nat
      ensures InOrder(result, j, k)
    {
      assert InOrder(names, if j < i then j else j + 1, if k < i then k else k + 1);
    }
    LessTotal(p, p);
    forall j | 0 <= j < |names| && j != i
      ensures names[j] in result && names[j] != p
    {
      assert InOrder(names, i, j) && InOrder(names, j, i);
      assert result[if j < i then j else j - 1] == names[j];
    }
    forall n | n in result
      ensures n in names && n != p
    {
      var j :| 0 <= j < |result| && result[j] == n;
      assert n == names[if j < i then j else j + 1];
    }
  }

  function RemoveFromFace(faces: map<nat, seq<RibEntry>>, f: nat, e: RibEntry): map<nat, seq<RibEntry>> {
    faces[f := if f in faces then RemoveAll(faces[f], e) else []]
  }

  lemma HasFaceAfterErase(e: Entry, i: nat, f: nat)
    requires i < |e.routes|
    ensures EraseFromEntry(e, i).HasFace(f) ==> e.HasFace(f)
    ensures f != e.routes[i].faceId ==> EraseFromEntry(e, i).HasFace(f) == e.HasFace(f)
    ensures e.HasFace(e.routes[i].faceId)
  {
    var rest := EraseFromEntry(e, i).routes;
    FindFaceMeaning(e.routes, f);
    FindFaceMeaning(e.routes, e.routes[i].faceId);
    FindFaceMeaning(rest, f);
    if f != e.routes[i].faceId {
      FindRemoved(e.routes, i, f);
    }
  }

  /** The face index after a route left the entry at p, before an empty entry leaves the table. */
  lemma IndexAfterErase(faces: map<nat, seq<RibEntry>>, table: map<Name, RibEntry>, t: Table, p: Name, i: nat)
    requires IndexOk(faces, table, t) && p in table && i < |t[p].routes|
    requires forall n | n in table && n != p :: table[n] != table[p]
    ensures var e, f := EraseFromEntry(t[p], i), t[p].routes[i].faceId;
            IndexOk(if e.HasFace(f) then faces else RemoveFromFace(faces, f, table[p]), table, t[p := e])
  {
    var e, face := EraseFromEntry(t[p], i), t[p].routes[i].faceId;
    var faces' := if e.HasFace(face) then faces else RemoveFromFace(faces, face, table[p]);
    var u := t[p := e];
    forall n, f: nat | n in table
      ensures u[n].HasFace(f) <==> f in faces' && table[n] in faces'[f]
    {
      HasFaceAfterErase(t[p], i, f);
      assert t[n].HasFace(f) <==> f in faces && table[n] in faces[f];
    }
  }

  /** An entry without routes is listed under no face, so it can leave the table. */
  lemma IndexWithoutEntry(faces: map<nat, seq<RibEntry>>, table: map<Name, RibEntry>, t: Table, p: Name)
    requires IndexOk(faces, table, t) && p in table && |t[p].routes| == 0
    requires forall n | n in table && n != p :: table[n] != table[p]
    ensures IndexOk(faces, table - {p}, t - {p})
  {
    forall f, e | f in faces && e in faces[f]
      ensures e in (table - {p}).Values
    {
      assert e in table.Values;
      var n :| n in table && table[n] == e;
      assert t[p].HasFace(f) <==> f in faces && table[p] in faces[f];
      assert (table - {p})[n] == e;
    }
    forall n, f: nat | n in table - {p}
      ensures (t - {p})[n].HasFace(f) <==> f in faces && (table - {p})[n] in faces[f]
    {
      assert t[n].HasFace(f) <==> f in faces && table[n] in faces[f];
    }
  }

  lemma RoutesAfterErase(t: Table, p: Name, i: nat)
    requires RoutesOk(t) && p in t && i < |t[p].routes|
    ensures var e := EraseFromEntry(t[p], i);
            RoutesOk(if |e.routes| == 0 then t - {p} else t[p := e])
  {
  }

  lemma TotalWithoutEntry(names: seq<Name>, t: Table, p: Name)
    requires Sorted(names) && p in names && p in t && |t[p].routes| == 0
    ensures TotalRoutes(RemoveName(names, p), t - {p}) == TotalRoutes(names, t)
  {
    var i := LowerBound(names, p);
    LowerBoundSplits(names, p);
    SortedAfterRemove(names, p);
    TotalAt(names, i, t);
    TotalSplit(names[..i], names[i + 1..], t);
    TotalFrame(RemoveName(names, p), t, t - {p});
  }

  lemma BooksAfterErase(names: seq<Name>, table: map<Name, RibEntry>, faces: map<nat, seq<RibEntry>>, nItems: nat,
                        t: Table, p: Name, i: nat)
    requires BooksOk(names, table, faces, nItems, t) && Sorted(names) && p in names && p in table && i < |t[p].routes|
    requires forall n | n in table && n != p :: table[n] != table[p]
    ensures var e, f := EraseFromEntry(t[p], i), t[p].routes[i].faceId;
            var faces' := if e.HasFace(f) then faces else RemoveFromFace(faces, f, table[p]);
            nItems > 0 &&
            (|e.routes| > 0 ==> BooksOk(names, table, faces', nItems - 1, t[p := e])) &&
            (|e.routes| == 0 ==> BooksOk(RemoveName(names, p), table - {p}, faces', nItems - 1, t - {p}))
  {
    var e, f := EraseFromEntry(t[p], i), t[p].routes[i].faceId;
    var faces' := if e.HasFace(f) then faces else RemoveFromFace(faces, f, table[p]);
    var u := t[p := e];
    RoutesAfterErase(t, p, i);
    IndexAfterErase(faces, table, t, p, i);
    TotalAfterChange(names, p, t, u);
    if |e.routes| == 0 {
      IndexWithoutEntry(faces', table, u, p);
      TotalWithoutEntry(names, u, p);
      assert u - {p} == t - {p};
    }
  }

  lemma RoutesAfterInsert(t: Table, p: Name, r: Route)
    requires RoutesOk(t)
    ensures RoutesOk(Inserted(t, p, r))
  {
  }

  lemma HasFaceAfterInsert(e: Entry, r: Route, f: nat)
    ensures InsertIntoEntry(e, r).HasFace(f) <==> e.HasFace(f) || (r.faceId == f && Position(e.routes, r) == |e.routes|)
  {
    var i := Position(e.routes, r);
    if i == |e.routes| {
      FindAppend(e.routes, r, f);
    } else {
      FindFaceAfterUpdate(e.routes, i, InsertIntoEntry(e, r).routes[i], f);
    }
  }

  ghost function StateOf(table: map<Name, RibEntry>): Table
    reads table.Values
  {
    map n | n in table :: table[n].View()
  }

  lemma StateAfterFiling(before: map<Name, RibEntry>, table: map<Name, RibEntry>, p: Name, e: RibEntry, t: Table)
    requires p !in before && table == before[p := e] && t.Keys == before.Keys
    requires forall n | n in before :: t[n] == before[n].View()
    ensures StateOf(table) == t[p := e.View()]
  {
  }

  /** Every entry is filed under its own name, so different keys have different entries. */
  ghost predicate NamesOk(table: map<Name, RibEntry>)
    reads table.Values
  {
    forall n | n in table :: table[n].name == n
  }

  lemma ValuesAfterInsert<K, V>(m: map<K, V>, k: K, v: V)
    requires k !in m
    ensures m[k := v].Values == m.Values + {v}
  {
    forall x | x in m.Values
      ensures x in m[k := v].Values
    {
      var n :| n in m && m[n] == x;
      assert m[k := v][n] == x;
    }
    assert m[k := v][k] == v;
  }

  /** The keys in canonical order, and every entry filed under its name. */
  ghost predicate Ordered(names: seq<Name>, table: map<Name, RibEntry>)
    reads table.Values
  {
    Sorted(names) && (forall n :: n in names <==> n in table) && NamesOk(table)
  }

  ghost function ParentIn(table: map<Name, RibEntry>, n: Name): RibEntry? {
    var k := ParentLength(table.Keys, n, |n|);
    if k < 0 then null else table[n[..k]]
  }

  ghost predicate TreeOk(table: map<Name, RibEntry>)
    reads table.Values
  {
    LinksOk(table.Values) && forall n {:trigger ParentIn(table, n)} | n in table ::
      table[n].parent == ParentIn(table, n)
  }

  lemma SameParent(table: map<Name, RibEntry>, p: Name, n: Name)
    requires NamesOk(table) && p < n && p !in table
    ensures ParentIn(table, n) == ParentIn(table, p) <==>
              ParentLength(table.Keys, n, |n|) == ParentLength(table.Keys, p, |p|)
  {
    var k, kp := ParentLength(table.Keys, n, |n|), ParentLength(table.Keys, p, |p|);
    assert 0 <= k == kp ==> n[..k] == p[..k];
    if ParentIn(table, n) == ParentIn(table, p) && k >= 0 {
      assert table[n[..k]].name == n[..k] && table[p[..kp]].name == p[..kp];
      assert |n[..k]| == |p[..kp]|;
    }
  }

  method LinkEntry(ghost before: map<Name, RibEntry>, ghost table: map<Name, RibEntry>, ghost prefix: Name,
                   entry: RibEntry, parent: RibEntry?)
    requires NamesOk(table) && LinksOk(table.Values) && prefix !in before && table == before[prefix := entry]
    requires entry.parent == null && parent == ParentIn(before, prefix)
    requires forall n | n in before :: table[n].parent == ParentIn(before, n)
    modifies table.Values`children, entry`parent
    ensures LinksOk(table.Values) && entry.parent == parent
    ensures forall n | n in before :: table[n].parent == ParentIn(before, n)
    ensures NamesOk(table) && StateOf(table) == old(StateOf(table))
  {
    assert table[prefix] == entry;
    assert forall n | n in before :: table[n] == before[n] && table[n] != entry;
    MoveChild(entry, null, parent, table.Values);
  }

  /** The descendants in done that had the new entry's parent hang under the entry, the others where they were. */
  ghost predicate AdoptedSome(before: map<Name, RibEntry>, table: map<Name, RibEntry>, entry: RibEntry,
                              parent: RibEntry?, done: seq<RibEntry>)
    reads table.Values
  {
    before.Keys <= table.Keys && LinksOk(table.Values) && entry in table.Values && entry.parent == parent &&
    (parent != null ==> parent in table.Values) &&
    forall n {:trigger before[n]} | n in before ::
      before[n] == table[n] && before[n] != entry &&
      before[n].parent == if before[n] in done && ParentIn(before, n) == parent then entry else ParentIn(before, n)
  }

  /** The loop of insert over the descendants: those that shared the new entry's parent move under the new entry. */
  method AdoptDescendants(ghost before: map<Name, RibEntry>, ghost table: map<Name, RibEntry>, ghost prefix: Name,
                          entry: RibEntry, parent: RibEntry?, children: seq<RibEntry>)
    requires NamesOk(table) && LinksOk(table.Values) && prefix !in before && table == before[prefix := entry]
    requires entry.parent == parent == ParentIn(before, prefix)
    requires forall n | n in before :: table[n].parent == ParentIn(before, n)
    requires forall n | n in table && prefix < n :: table[n] in children
    requires forall e | e in children :: e in table.Values && prefix < e.name
    modifies table.Values`children, table.Values`parent
    ensures TreeOk(table)
    ensures NamesOk(table) && StateOf(table) == old(StateOf(table))
  {
    AdoptionStarts(before, table, prefix, entry, parent);
    FiledBefore(before, table, prefix, entry, children);
    var i := 0;
    while i < |children|
      invariant i <= |children| && AdoptedSome(before, table, entry, parent, children[..i])
    {
      AdoptIfSibling(before, table, entry, parent, children[..i], children[i]);
      TakeNext(children, i);
      i := i + 1;
    }
    TakeAll(children);
    AdoptionDone(before, table, prefix, entry, parent, children);
  }

  lemma TakeNext<T>(s: seq<T>, i: nat)
    requires i < |s|
    ensures s[..i + 1] == s[..i] + [s[i]]
  {
  }

  lemma TakeAll<T>(s: seq<T>)
    ensures s[..|s|] == s
  {
  }

  lemma FiledBefore(before: map<Name, RibEntry>, table: map<Name, RibEntry>, p: Name, entry: RibEntry,
                    es: seq<RibEntry>)
    requires NamesOk(table) && p !in before && table == before[p := entry]
    requires forall e | e in es :: e in table.Values && p < e.name
    ensures forall e | e in es :: e in before.Values
  {
    forall e | e in es
      ensures e in before.Values
    {
      var n :| n in table && table[n] == e;
      assert n == e.name && n in before && before[n] == e;
    }
  }

  method AdoptIfSibling(ghost before: map<Name, RibEntry>, ghost table: map<Name, RibEntry>, entry: RibEntry,
                        parent: RibEntry?, ghost done: seq<RibEntry>, child: RibEntry)
    requires AdoptedSome(before, table, entry, parent, done) && child in before.Values
    modifies table.Values`children, table.Values`parent
    ensures AdoptedSome(before, table, entry, parent, done + [child])
  {
    if child.parent == parent {
      MoveChild(child, parent, entry, table.Values);
    }
  }

  lemma AdoptionStarts(before: map<Name, RibEntry>, table: map<Name, RibEntry>, p: Name, entry: RibEntry,
                       parent: RibEntry?)
    requires NamesOk(table) && LinksOk(table.Values) && p !in before && table == before[p := entry]
    requires entry.parent == parent == ParentIn(before, p)
    requires forall n | n in before :: table[n].parent == ParentIn(before, n)
    ensures AdoptedSome(before, table, entry, parent, [])
  {
    assert table[p] == entry;
    forall n | n in before
      ensures before[n] == table[n] && before[n] != entry && before[n].parent == ParentIn(before, n)
    {
      assert table[n].name == n;
    }
  }

  /** Once every descendant that had the entry's parent hangs under the entry, all parents are what they should be. */
  lemma AdoptionDone(before: map<Name, RibEntry>, table: map<Name, RibEntry>, p: Name, entry: RibEntry,
                     parent: RibEntry?, children: seq<RibEntry>)
    requires NamesOk(table) && p !in before && table == before[p := entry] && parent == ParentIn(before, p)
    requires AdoptedSome(before, table, entry, parent, children)
    requires forall n | n in table && p < n :: table[n] in children
    requires forall e | e in children :: p < e.name
    ensures TreeOk(table)
  {
    assert table[p] == entry;
    forall n | n in table
      ensures table[n].parent == ParentIn(table, n)
    {
      ParentAfterAdoption(before, p, entry, n);
      assert n != p ==> before[n] == table[n] && table[n].name == n;
    }
  }

  lemma ParentAfterAdoption(before: map<Name, RibEntry>, p: Name, entry: RibEntry, n: Name)
    requires NamesOk(before) && p !in before
    ensures ParentIn(before[p := entry], n) ==
            if p < n && ParentIn(before, n) == ParentIn(before, p) then entry else ParentIn(before, n)
  {
    var table := before[p := entry];
    assert table.Keys == before.Keys + {p};
    if n == p {
      ParentLengthUnique(table.Keys, p, ParentLength(before.Keys, p, |p|));
    } else {
      ParentAfterInsert(before.Keys, p, n);
      if p < n {
        SameParent(before, p, n);
        assert n[..|p|] == p;
      }
      var k := ParentLength(before.Keys, n, |n|);
      assert k >= 0 ==> n[..k] in before;
    }
  }

  /** The loop of eraseEntry: every child of the entry goes to the entry's former parent. */
  method HandOverChildren(ghost entries: set<RibEntry>, entry: RibEntry, parent: RibEntry?)
    requires LinksOk(entries) && entry in entries && entry.parent == null
    requires parent != null ==> parent in entries
    modifies entries`children, entries`parent
    ensures LinksOk(entries) && entry.parent == null
    ensures forall e | e in entries :: e.parent == if old(e.parent) == entry then parent else old(e.parent)
  {
    var children := entry.children;
    var i := 0;
    while i < |children|
      invariant i <= |children| && LinksOk(entries) && entry.parent == null
      invariant forall e | e in entries :: e.parent == if e in children[..i] then parent else old(e.parent)
    {
      var child := children[i];
      assert child in entry.children by {
        assert child in old(entry.children) && old(child.parent) == entry;
        assert child !in children[..i];
      }
      assert children[..i + 1] == children[..i] + [child];
      MoveChild(child, entry, parent, entries);
      i := i + 1;
    }
    assert children[..i] == children;
  }

  /** eraseEntry's relinking: the entry leaves its parent, and its children go to that parent. */
  method DetachEntry(ghost table: map<Name, RibEntry>, ghost before: map<Name, RibEntry>, ghost prefix: Name,
                     entry: RibEntry)
    requires NamesOk(table) && TreeOk(table) && table == before[prefix := entry] && prefix !in before
    modifies table.Values`children, table.Values`parent
    ensures TreeOk(before) && NamesOk(table) && StateOf(table) == old(StateOf(table))
  {
    assert table[prefix] == entry && forall n | n in before :: table[n] == before[n] && table[n] != entry;
    var parent := entry.parent;
    assert parent == ParentIn(table, prefix) && forall n | n in before :: table[n].parent == ParentIn(table, n);
    MoveChild(entry, parent, null, table.Values);
    HandOverChildren(table.Values, entry, parent);
    ParentAfterAdoption(before, prefix, entry, prefix);
    forall n | n in before
      ensures before[n].parent == ParentIn(before, n) != entry
    {
      ParentAfterAdoption(before, prefix, entry, n);
    }
    UnlinkedEntry(table, before, prefix, entry);
  }

  lemma StateWithoutEntry(table: map<Name, RibEntry>, before: map<Name, RibEntry>, prefix: Name, entry: RibEntry)
    requires NamesOk(table) && prefix !in before && table == before[prefix := entry]
    ensures NamesOk(before) && StateOf(before) == StateOf(table) - {prefix}
  {
    assert forall n | n in before :: before[n] == table[n];
  }

  lemma UnlinkedEntry(table: map<Name, RibEntry>, before: map<Name, RibEntry>, prefix: Name, entry: RibEntry)
    requires LinksOk(table.Values) && prefix !in before && table == before[prefix := entry] && entry !in before.Values
    requires entry.parent == null && forall n | n in before :: before[n].parent != entry
    ensures LinksOk(before.Values)
  {
    ValuesAfterInsert(before, prefix, entry);
  }

  method NewEntry(prefix: Name, route: Route) returns (e: RibEntry)
    ensures fresh(e) && e.name == prefix && e.parent == null && e.children == []
    ensures e.View() == InsertIntoEntry(Entry([], [], 0), route)
  {
    e := new RibEntry(prefix);
    var _ := e.InsertRoute(route);
  }

  /** Changing the routes of one entry changes the table at its name only. */
  method PutRouteAt(ghost names: seq<Name>, ghost table: map<Name, RibEntry>, ghost prefix: Name, entry: RibEntry,
                    route: Route)
    returns (isNew: bool)
    requires Ordered(names, table) && TreeOk(table) && prefix in table && entry == table[prefix]
    modifies entry`routes, entry`nRoutesWithCaptureSet
    ensures Ordered(names, table) && TreeOk(table)
    ensures StateOf(table) == Inserted(old(StateOf(table)), prefix, route)
    ensures isNew <==> Position(old(entry.routes), route) == |old(entry.routes)|
  {
    isNew := entry.PutRoute(route);
    assert forall n | n in table && n != prefix :: table[n] != entry;
  }

  method EraseRouteFrom(ghost names: seq<Name>, ghost table: map<Name, RibEntry>, ghost prefix: Name, entry: RibEntry,
                        i: nat)
    requires Ordered(names, table) && TreeOk(table) && prefix in table && entry == table[prefix] && i < |entry.routes|
    modifies entry`routes, entry`nRoutesWithCaptureSet
    ensures Ordered(names, table) && TreeOk(table)
    ensures StateOf(table) == old(StateOf(table))[prefix := EraseFromEntry(old(entry.View()), i)]
    ensures entry.View() == EraseFromEntry(old(entry.View()), i)
  {
    entry.EraseRouteAt(i);
    assert forall n | n in table && n != prefix :: table[n] != entry;
  }

  /** One recorded change of the inherited routes of an entry of the table. */
  method ModifyRecords(ghost names: seq<Name>, ghost table: map<Name, RibEntry>, entry: RibEntry, update: RibUpdate)
    requires Ordered(names, table) && TreeOk(table) && update.name in table && entry == table[update.name]
    requires update.action == Unregister ==> entry.View().HasRecord(update.route.faceId)
    modifies entry`inheritedRoutes
    ensures Ordered(names, table) && TreeOk(table)
    ensures StateOf(table) == ApplyRecord(old(StateOf(table)), update)
  {
    match update.action {
      case Register => entry.AddInheritedRoute(update.route);
      case Unregister => entry.RemoveInheritedRoute(update.route);
      case RemoveFace =>
    }
    assert forall n | n in table && n != update.name :: table[n] != entry;
  }

  class Rib {
    // The std::map from names to entries: its keys in iteration order, and its values.
    var names: seq<Name>
    var table: map<Name, RibEntry>
    var faceMap: map<nat, seq<RibEntry>>
    var nItems: nat

    constructor ()
      ensures Valid() && State() == map[]
    {
      names, table := [], map[];
      faceMap, nItems := map[], 0;
    }

    ghost function State(): Table
      reads this, table.Values
    {
      StateOf(table)
    }

    /** Every entry's parent is the entry of its longest proper prefix in the table, and children mirror parents. */
    ghost predicate Valid()
      reads this, table.Values
    {
      Ordered(names, table) && TreeOk(table) && BooksOk(names, table, faceMap, nItems, State())
    }

    // ----- searches -----

    method FindParent(prefix: Name) returns (r: RibEntry?)
      ensures r == ParentIn(table, prefix)
    {
      var i := |prefix| - 1;
      while i >= 0
        invariant -1 <= i < |prefix|
        invariant forall j :: i < j < |prefix| ==> prefix[..j] !in table
      {
        if prefix[..i] in table {
          ParentLengthUnique(table.Keys, prefix, i);
          return table[prefix[..i]];
        }
        i := i - 1;
      }
      ParentLengthUnique(table.Keys, prefix, -1);
      return null;
    }

    /** The list holds the entries of these names, in this order. */
    ghost predicate ListsNames(list: seq<RibEntry>, ns: seq<Name>)
      reads this
    {
      |list| == |ns| && forall i :: 0 <= i < |list| ==> ns[i] in table && list[i] == table[ns[i]]
    }

    lemma ExtensionsInTable(p: Name)
      requires Ordered(names, table)
      ensures forall n :: n in Extensions(names, p) <==> n in table && p <= n
    {
      forall n {
        ExtensionsMembers(names, p, n);
      }
    }

    /** The contiguous scan from the key itself: its proper extensions in table order. */
    method FindDescendants(prefix: Name) returns (children: seq<RibEntry>)
      requires Ordered(names, table)
      ensures prefix !in table ==> children == []
      ensures prefix in table ==> ListsNames([table[prefix]] + children, Extensions(names, prefix))
    {
      children := [];
      var it := LowerBound(names, prefix);
      LowerBoundSplits(names, prefix);
      if it < |names| && names[it] == prefix {
        ghost var start := it;
        it := it + 1;
        while it < |names|
          invariant start < it <= |names| && |children| == it - start - 1
          invariant forall j :: start < j < it ==> children[j - start - 1] == table[names[j]]
          invariant forall j :: start <= j < it ==> prefix <= names[j]
        {
          var isPrefix := IsPrefixOf(prefix, names[it]);
          if isPrefix {
            children := children + [table[names[it]]];
          } else {
            break;
          }
          it := it + 1;
        }
        ScanListed(prefix, children, start, it);
      }
    }

    lemma ScanListed(prefix: Name, children: seq<RibEntry>, start: nat, end: nat)
      requires Ordered(names, table) && start < end <= |names| && names[start] == prefix && prefix in table
      requires (forall j :: start <= j < end ==> prefix <= names[j]) && (end < |names| ==> !(prefix <= names[end]))
      requires |children| == end - start - 1
      requires forall j :: start < j < end ==> children[j - start - 1] == table[names[j]]
      ensures ListsNames([table[prefix]] + children, Extensions(names, prefix))
    {
      var all, ext := [table[prefix]] + children, Extensions(names, prefix);
      ExtensionsAreTheScan(names, prefix, start, end);
      forall i | 0 <= i < |all|
        ensures ext[i] in table && all[i] == table[ext[i]]
      {
        assert ext[i] == names[start + i];
        assert i > 0 ==> all[i] == children[i - 1];
      }
    }

    /** The scan finds exactly the entries strictly below the key. */
    lemma DescendantsAreBelow(prefix: Name, children: seq<RibEntry>)
      requires Ordered(names, table) && prefix in table
      requires ListsNames([table[prefix]] + children, Extensions(names, prefix))
      ensures forall e | e in children :: e in table.Values && prefix < e.name
      ensures forall n | n in table && prefix < n :: table[n] in children
    {
      var ext, all := Extensions(names, prefix), [table[prefix]] + children;
      ExtensionsInTable(prefix);
      ExtensionsDistinct(names, prefix);
      assert all[0] == table[ext[0]] && ext[0] == prefix;
      forall e | e in children
        ensures e in table.Values && prefix < e.name
      {
        var i :| 0 <= i < |children| && children[i] == e;
        assert all[i + 1] == e && e == table[ext[i + 1]] && ext[i + 1] in ext && ext[0] != ext[i + 1];
      }
      forall n | n in table && prefix < n
        ensures table[n] in children
      {
        var i :| 0 <= i < |ext| && ext[i] == n;
        assert all[i] == table[n] && children[i - 1] == table[n];
      }
    }

    /** The filter of the whole table: every extension of the prefix, itself included, in table order. */
    method FindDescendantsForNonInsertedName(prefix: Name) returns (children: seq<RibEntry>)
      requires Ordered(names, table)
      ensures ListsNames(children, Extensions(names, prefix))
    {
      children := [];
      ghost var done: seq<Name> := [];
      var i := 0;
      while i < |names|
        invariant i <= |names|
        invariant ListsNames(children, done) && done + Extensions(names[i..], prefix) == Extensions(names, prefix)
      {
        var isPrefix := IsPrefixOf(prefix, names[i]);
        if isPrefix {
          children := children + [table[names[i]]];
          done := done + [names[i]];
        }
        i := i + 1;
      }
    }

    /** The nearest child-inherit route on every face, walking up from a parent until an entry with capture. */
    method CollectAncestorRoutes(n: Name, start: RibEntry?) returns (ancestorRoutes: RouteSet)
      requires NamesOk(table) && TreeOk(table) && start == ParentIn(table, n)
      ensures IsAncestorRoutes(ancestorRoutes, StateOf(table), n)
    {
      ghost var t := StateOf(table);
      ancestorRoutes := map[];
      var parent := start;
      ghost var k: nat := |n|;
      while parent != null
        invariant k <= |n| && parent == (var l := ParentLength(table.Keys, n, k); if l < 0 then null else table[n[..l]])
        invariant CollectedTo(ancestorRoutes, t, n, k)
        decreases k
      {
        ghost var l := ParentLength(table.Keys, n, k);
        ghost var up := n[..l];
        assert parent == table[up] && t[up] == parent.View();
        ghost var before := ancestorRoutes;
        ancestorRoutes := AddInheritable(parent.routes, ancestorRoutes);
        CollectedStep(before, ancestorRoutes, t, n, l, k);
        if parent.HasCapture() {
          return;
        }
        ParentLengthOfPrefix(table.Keys, n, l, l);
        ghost var m := ParentLength(table.Keys, n, l);
        assert m >= 0 ==> up[..m] == n[..m];
        assert parent.parent == ParentIn(table, up);
        k := l;
        parent := parent.parent;
      }
      CollectedAll(ancestorRoutes, t, n, k);
    }

    // ----- insertion -----

    /** insert, for a name that is in the table. */
    method InsertIntoExisting(prefix: Name, entry: RibEntry, route: Route)
      requires Ordered(names, table) && TreeOk(table) && prefix in table && entry == table[prefix]
      modifies this`nItems, this`faceMap, entry`routes, entry`nRoutesWithCaptureSet
      ensures Ordered(names, table) && TreeOk(table)
      ensures StateOf(table) == Inserted(old(StateOf(table)), prefix, route)
      ensures var isNew := Position(old(entry.routes), route) == |old(entry.routes)|;
              && nItems == (if isNew then old(nItems) + 1 else old(nItems))
              && faceMap == (if isNew then AddToFace(old(faceMap), route.faceId, entry) else old(faceMap))
    {
      var isNew := PutRouteAt(names, table, prefix, entry, route);
      if isNew {
        nItems := nItems + 1;
        faceMap := AddToFace(faceMap, route.faceId, entry);
      }
    }

    /** insert, for a name that is not in the table: a new entry between its parent and the children it adopts. */
    method InsertNewEntry(prefix: Name, route: Route) returns (ghost entry: RibEntry)
      requires Ordered(names, table) && TreeOk(table) && prefix !in table
      modifies this, table.Values`children, table.Values`parent
      ensures Ordered(names, table) && TreeOk(table)
      ensures fresh(entry) && table == old(table)[prefix := entry] && names == InsertName(old(names), prefix)
      ensures StateOf(table) == Inserted(old(StateOf(table)), prefix, route)
      ensures nItems == old(nItems) + 1 && faceMap == AddToFace(old(faceMap), route.faceId, entry)
    {
      ghost var before := table;
      var e := CreateEntry(prefix, route);
      entry := e;
      LinkNewEntry(prefix, e, before);
    }

    /** A new entry with its first route, filed in the map and the face index but not linked yet. */
    method CreateEntry(prefix: Name, route: Route) returns (e: RibEntry)
      requires Ordered(names, table) && LinksOk(table.Values) && prefix !in table
      modifies this
      ensures Ordered(names, table) && LinksOk(table.Values)
      ensures fresh(e) && e.parent == null
      ensures table == old(table)[prefix := e] && names == InsertName(old(names), prefix)
      ensures StateOf(table) == Inserted(old(StateOf(table)), prefix, route)
      ensures nItems == old(nItems) + 1 && faceMap == AddToFace(old(faceMap), route.faceId, e)
    {
      ghost var t := StateOf(table);
      nItems := nItems + 1;
      e := NewEntry(prefix, route);
      faceMap := AddToFace(faceMap, route.faceId, e);
      FileEntry(prefix, e);
      StateAfterFiling(old(table), table, prefix, e, t);
    }

    /** The new entry goes under its parent and takes over the descendants that had the same parent. */
    method LinkNewEntry(prefix: Name, e: RibEntry, ghost before: map<Name, RibEntry>)
      requires Ordered(names, table) && LinksOk(table.Values) && prefix !in before && table == before[prefix := e]
      requires e.parent == null && forall n | n in before :: table[n].parent == ParentIn(before, n)
      modifies table.Values`children, table.Values`parent
      ensures Ordered(names, table) && TreeOk(table) && StateOf(table) == old(StateOf(table))
    {
      var parent := FindParent(prefix);
      assert table[prefix] == e && forall n | n in before :: before[n] == table[n];
      ParentAfterAdoption(before, prefix, e, prefix);
      LinkEntry(before, table, prefix, e, parent);
      var children := FindDescendants(prefix);
      DescendantsAreBelow(prefix, children);
      AdoptDescendants(before, table, prefix, e, parent, children);
    }

    /** The new key of the map, with an entry that is not linked yet. */
    method FileEntry(prefix: Name, e: RibEntry)
      requires Ordered(names, table) && LinksOk(table.Values) && prefix !in table
      requires e !in table.Values && e.name == prefix && e.parent == null && e.children == []
      modifies this`names, this`table
      ensures Ordered(names, table) && LinksOk(table.Values)
      ensures table == old(table)[prefix := e] && names == InsertName(old(names), prefix)
      ensures StateOf(table) == old(StateOf(table))[prefix := e.View()]
    {
      SortedAfterInsert(names, prefix);
      names := InsertName(names, prefix);
      table := table[prefix := e];
      assert forall n | n in old(table) :: table[n] == old(table)[n];
      ValuesAfterInsert(old(table), prefix, e);
    }

    method Insert(prefix: Name, route: Route) returns (newEntry: bool)
      requires Valid()
      modifies this, table.Values
      ensures Valid()
      ensures State() == Inserted(old(State()), prefix, route)
      ensures newEntry <==> prefix !in old(table)
      ensures fresh(table.Values - old(table.Values))
    {
      ghost var t := State();
      newEntry := prefix !in table;
      if prefix in table {
        BooksAfterInsert(names, table, faceMap, nItems, t, prefix, route);
        InsertIntoExisting(prefix, table[prefix], route);
      } else {
        ghost var names0, table0, faces0, nItems0 := names, table, faceMap, nItems;
        ghost var entry := InsertNewEntry(prefix, route);
        BooksAfterNewEntry(names0, table0, faces0, nItems0, t, prefix, route, entry);
      }
    }

    // ----- erasure -----

    /** eraseEntry: relink around the entry, then drop its key. */
    method EraseEntry(prefix: Name, entry: RibEntry)
      requires Ordered(names, table) && TreeOk(table) && prefix in table && table[prefix] == entry
      modifies this`names, this`table, table.Values`children, table.Values`parent
      ensures Ordered(names, table) && TreeOk(table)
      ensures table == old(table) - {prefix} && names == RemoveName(old(names), prefix)
      ensures StateOf(table) == old(StateOf(table)) - {prefix}
    {
      ghost var whole := table;
      SortedAfterRemove(names, prefix);
      names := RemoveName(names, prefix);
      table := table - {prefix};
      assert whole == table[prefix := entry];
      DetachEntry(whole, table, prefix, entry);
      StateWithoutEntry(whole, table, prefix, entry);
    }

    /** The route at position i leaves the entry, and the entry leaves the face's list with its last route there. */
    method EraseRoute(prefix: Name, entry: RibEntry, i: nat)
      requires Ordered(names, table) && TreeOk(table) && prefix in table && table[prefix] == entry && i < |entry.routes|
      requires nItems > 0
      modifies this`nItems, this`faceMap, entry`routes, entry`nRoutesWithCaptureSet
      ensures Ordered(names, table) && TreeOk(table)
      ensures StateOf(table) == old(StateOf(table))[prefix := EraseFromEntry(old(entry.View()), i)]
      ensures entry.View() == EraseFromEntry(old(entry.View()), i)
      ensures nItems == old(nItems) - 1
      ensures faceMap == if EraseFromEntry(old(entry.View()), i).HasFace(old(entry.routes[i].faceId)) then old(faceMap)
                         else RemoveFromFace(old(faceMap), old(entry.routes[i].faceId), entry)
    {
      var faceId := entry.routes[i].faceId;
      EraseRouteFrom(names, table, prefix, entry, i);
      ForgetRoute(entry, faceId);
    }

    method ForgetRoute(entry: RibEntry, faceId: nat)
      requires nItems > 0
      modifies this`nItems, this`faceMap
      ensures nItems == old(nItems) - 1
      ensures faceMap == if entry.View().HasFace(faceId) then old(faceMap)
                         else RemoveFromFace(old(faceMap), faceId, entry)
    {
      nItems := nItems - 1;
      var hasFace := entry.HasFaceId(faceId);
      if !hasFace {
        faceMap := RemoveFromFace(faceMap, faceId, entry);
      }
    }

    method Erase(prefix: Name, route: Route) returns (erasedEntry: bool)
      requires Valid()
      modifies this, table.Values
      ensures Valid()
      ensures State() == Erased(old(State()), prefix, route)
      ensures erasedEntry <==> prefix in old(table) && prefix !in table
      ensures table.Values <= old(table.Values)
    {
      erasedEntry := false;
      if prefix in table {
        var entry := table[prefix];
        var i := entry.FindRoute(route);
        if i != |entry.routes| {
          BooksAfterErase(names, table, faceMap, nItems, State(), prefix, i);
          erasedEntry := EraseRouteAndEntry(prefix, entry, i);
        }
      }
    }

    method EraseRouteAndEntry(prefix: Name, entry: RibEntry, i: nat) returns (erasedEntry: bool)
      requires Ordered(names, table) && TreeOk(table) && prefix in table && table[prefix] == entry && i < |entry.routes|
      requires nItems > 0
      modifies this, table.Values
      ensures Ordered(names, table) && TreeOk(table)
      ensures nItems == old(nItems) - 1
      ensures var t, e := old(StateOf(table)), EraseFromEntry(old(entry.View()), i);
              && erasedEntry == (|e.routes| == 0)
              && StateOf(table) == (if erasedEntry then t - {prefix} else t[prefix := e])
      ensures table == (if erasedEntry then old(table) - {prefix} else old(table))
      ensures names == (if erasedEntry then RemoveName(old(names), prefix) else old(names))
      ensures faceMap == if EraseFromEntry(old(entry.View()), i).HasFace(old(entry.routes[i].faceId)) then old(faceMap)
                         else RemoveFromFace(old(faceMap), old(entry.routes[i].faceId), entry)
    {
      ghost var t, e := StateOf(table), EraseFromEntry(entry.View(), i);
      EraseRoute(prefix, entry, i);
      erasedEntry := entry.routes == [];
      WithoutChanged(t, prefix, e);
      if erasedEntry {
        EraseEntry(prefix, entry);
      }
    }

    lemma WithoutChanged(t: Table, p: Name, e: Entry)
      ensures t[p := e] - {p} == t - {p}
    {
    }

    // ----- the face index -----

    /** All routes on a face: one pair for every listed entry and every route of it on the face. */
    method FindRoutesWithFaceId(faceId: nat) returns (routes: seq<(Name, Route)>)
      requires Valid()
      ensures forall n, r :: (n, r) in routes <==> n in table && r in table[n].routes && r.faceId == faceId
    {
      routes := [];
      if faceId in faceMap {
        var entries := faceMap[faceId];
        var i := 0;
        while i < |entries|
          invariant i <= |entries|
          invariant forall n, r :: (n, r) in routes <==>
                      r.faceId == faceId && exists e | e in entries[..i] :: e.name == n && r in e.routes
        {
          ghost var found := routes;
          var entry := entries[i];
          var j := 0;
          while j < |entry.routes|
            invariant j <= |entry.routes|
            invariant forall n, r :: (n, r) in routes <==>
                        (n, r) in found || (r.faceId == faceId && n == entry.name && r in entry.routes[..j])
          {
            if entry.routes[j].faceId == faceId {
              routes := routes + [(entry.name, entry.routes[j])];
            }
            j := j + 1;
          }
          assert entries[..i + 1] == entries[..i] + [entry];
          i := i + 1;
        }
        assert entries[..i] == entries;
      }
      forall n, r
        ensures (n, r) in routes <==> n in table && r in table[n].routes && r.faceId == faceId
      {
        if n in table {
          FindFaceMeaning(table[n].routes, faceId);
          assert State()[n].HasFace(faceId) <==> faceId in faceMap && table[n] in faceMap[faceId];
        }
      }
    }

    // ----- inherited records -----

    /** modifyInheritedRoutes: the changes in order, each to the entry of its name. */
    method ModifyInheritedRoutes(inheritedRoutes: seq<RibUpdate>)
      requires Valid() && Applicable(State(), inheritedRoutes)
      modifies table.Values`inheritedRoutes
      ensures Valid() && State() == ApplyRecords(old(State()), inheritedRoutes)
    {
      ghost var t := State();
      var i := 0;
      while i < |inheritedRoutes|
        invariant i <= |inheritedRoutes|
        invariant Ordered(names, table) && TreeOk(table)
        invariant BooksOk(names, table, faceMap, nItems, State())
        invariant Applicable(State(), inheritedRoutes[i..])
        invariant ApplyRecords(State(), inheritedRoutes[i..]) == ApplyRecords(t, inheritedRoutes)
      {
        var update := inheritedRoutes[i];
        ModifyInheritedRoute(table[update.name], update);
        i := i + 1;
      }
    }

    method ModifyInheritedRoute(entry: RibEntry, update: RibUpdate)
      requires Valid() && update.name in table && entry == table[update.name]
      requires update.action == Unregister ==> entry.View().HasRecord(update.route.faceId)
      modifies entry`inheritedRoutes
      ensures Valid() && State() == ApplyRecord(old(State()), update)
    {
      ghost var t := State();
      ModifyRecords(names, table, entry, update);
      BooksReadRoutes(names, table, faceMap, nItems, t, State());
    }

    // ----- the end of an update -----

    /** onFibUpdateSuccess: the routes change, then the precalculated inherited routes. */
    method OnFibUpdateSuccess(update: RibUpdate, inheritedRoutes: seq<RibUpdate>)
      requires Valid() && Applicable(TableUpdated(State(), update), inheritedRoutes)
      modifies this, table.Values
      ensures Valid() && fresh(table.Values - old(table.Values))
      ensures State() == ApplyRecords(TableUpdated(old(State()), update), inheritedRoutes)
    {
      if update.action == Register {
        var _ := Insert(update.name, update.route);
      } else {
        var _ := Erase(update.name, update.route);
      }
      ModifyInheritedRoutes(inheritedRoutes);
    }
  }

  /** The routes on a face, in list order. */
  function OnFace(routes: seq<Route>, f: nat): seq<Route> {
    if |routes| == 0 then []
    else if routes[0].faceId == f then [routes[0]] + OnFace(routes[1..], f)
    else OnFace(routes[1..], f)
  }

  lemma {:induction false} OnFaceOfSingle(routes: seq<Route>, f: nat)
    requires OneRoutePerFace(routes)
    ensures |OnFace(routes, f)| == if FindFace(routes, f).Some? then 1 else 0
  {
    if |routes| > 0 {
      OnFaceOfSingle(routes[1..], f);
      FindFaceMeaning(routes[1..], f);
    }
  }

  predicate SecondAt(list: seq<Route>, j: nat, k: nat) {
    j < |list| && k < |list| && j != k && list[j].cost <= list[k].cost &&
    forall l :: 0 <= l < |list| && l != j && l != k ==> list[k].cost <= list[l].cost
  }

  /** r may stand at position 1 of the list ordered by cost. */
  ghost predicate SecondByCost(list: seq<Route>, r: Route) {
    exists j: nat, k: nat :: SecondAt(list, j, k) && list[k] == r
  }

  /** The position of a cheapest route other than the one at skip. */
  method Cheapest(list: seq<Route>, skip: int) returns (k: nat)
    requires |list| > if 0 <= skip < |list| then 1 else 0
    ensures k < |list| && k != skip
    ensures forall l :: 0 <= l < |list| && l != skip ==> list[k].cost <= list[l].cost
  {
    k := if skip == 0 then 1 else 0;
    var i := 0;
    while i < |list|
      invariant i <= |list| && k < |list| && k != skip
      invariant forall l :: 0 <= l < i && l != skip ==> list[k].cost <= list[l].cost
    {
      if i != skip && list[i].cost < list[k].cost {
        k := i;
      }
      i := i + 1;
    }
  }

  method CollectOnFace(routes: seq<Route>, faceId: nat) returns (matches: seq<Route>)
    ensures matches == OnFace(routes, faceId)
  {
    matches := [];
    var i := 0;
    while i < |routes|
      invariant i <= |routes| && OnFace(routes, faceId) == matches + OnFace(routes[i..], faceId)
    {
      if routes[i].faceId == faceId {
        matches := matches + [routes[i]];
      }
      i := i + 1;
    }
  }

  /** getRouteWithSecondLowestCostByFaceId: nth_element leaves some second-cheapest route at position 1. */
  method SecondLowest(routes: seq<Route>, faceId: nat) returns (r: Option<Route>)
    ensures r.None? <==> |OnFace(routes, faceId)| < 2
    ensures r.Some? ==> SecondByCost(OnFace(routes, faceId), r.value)
  {
    var matches := CollectOnFace(routes, faceId);
    if |matches| < 2 {
      return None;
    }
    var j := Cheapest(matches, -1);
    var k := Cheapest(matches, j);
    r := Some(matches[k]);
    assert SecondAt(matches, j, k);
  }

  /** The inner loop of getAncestorRoutes: an entry's child-inherit routes on faces not seen before. */
  method AddInheritable(routes: seq<Route>, s: RouteSet) returns (r: RouteSet)
    requires WellKeyed(s)
    ensures WellKeyed(r)
    ensures forall f: nat :: f in s ==> f in r && r[f] == s[f]
    ensures forall f: nat :: f !in s ==> FindInherit(routes, f) == if f in r then Some(r[f]) else None
  {
    r := s;
    var i := 0;
    while i < |routes|
      invariant i <= |routes| && WellKeyed(r)
      invariant forall f: nat :: f in s ==> f in r && r[f] == s[f]
      invariant forall f: nat :: f !in s ==>
                  FindInherit(routes, f) == if f in r then Some(r[f]) else FindInherit(routes[i..], f)
    {
      if routes[i].IsChildInherit() {
        r := InsertRoute(r, routes[i]);
      }
      i := i + 1;
    }
  }

  ghost predicate IsAncestorRoutes(s: RouteSet, t: Table, n: Name) {
    WellKeyed(s) &&
    forall f: nat :: Nearest(t, n, f) == if f in s then Some(s[f]) else None
  }

  /** The set holds the answers found at prefixes of length k and more, and nothing has blocked the walk. */
  ghost predicate CollectedTo(s: RouteSet, t: Table, n: Name, k: nat)
    requires k <= |n|
  {
    WellKeyed(s) &&
    forall f: nat :: ScanUp(t, n, k, |n|, f) == if f in s then Found(s[f]) else Through
  }

  lemma CollectedStep(s: RouteSet, r: RouteSet, t: Table, n: Name, l: nat, k: nat)
    requires l < k <= |n| && n[..l] in t && (forall j :: l < j < k ==> n[..j] !in t) && CollectedTo(s, t, n, k)
    requires WellKeyed(r) && forall f: nat :: f in s ==> f in r && r[f] == s[f]
    requires forall f: nat :: f !in s ==> FindInherit(t[n[..l]].routes, f) == if f in r then Some(r[f]) else None
    ensures t[n[..l]].HasCapture() ==> IsAncestorRoutes(r, t, n)
    ensures !t[n[..l]].HasCapture() ==> CollectedTo(r, t, n, l)
  {
    forall f: nat
      ensures ScanUp(t, n, l, |n|, f) ==
              if f in r then Found(r[f]) else if t[n[..l]].HasCapture() then Blocked else Through
      ensures t[n[..l]].HasCapture() ==> Nearest(t, n, f) == if f in r then Some(r[f]) else None
    {
      ScanStep(t, n, l, k, f);
      ScanSplit(t, n, 0, l, |n|, f);
    }
  }

  lemma CollectedAll(s: RouteSet, t: Table, n: Name, k: nat)
    requires k <= |n| && (forall j :: 0 <= j < k ==> n[..j] !in t) && CollectedTo(s, t, n, k)
    ensures IsAncestorRoutes(s, t, n)
  {
    forall f: nat
      ensures Nearest(t, n, f) == if f in s then Some(s[f]) else None
    {
      ScanEnd(t, n, k, f);
    }
  }
}
