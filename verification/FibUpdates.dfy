/** The update lists of a batch, how they coalesce, and what they do to the FIB (fib-updater.cpp, addFibUpdate). */
module FibUpdates {
  import opened Wrappers
  import opened Names
  import opened Routes
  import opened RibModel

  /** The state a computation of updates works on. */
  datatype Lists = Lists(batchFaceId: nat, batch: seq<FibUpdate>, nonBatch: seq<FibUpdate>, records: seq<RibUpdate>)

  /** The position of the update with the same name and face, or the length of the list. */
  function PositionOf(list: seq<FibUpdate>, n: Name, f: nat): (i: nat)
    ensures i <= |list|
    ensures i < |list| ==> list[i].name == n && list[i].faceId == f
    ensures forall j :: 0 <= j < i ==> !(list[j].name == n && list[j].faceId == f)
  {
    if |list| == 0 || (list[0].name == n && list[0].faceId == f) then 0 else 1 + PositionOf(list[1..], n, f)
  }

  function Lookup(list: seq<FibUpdate>, n: Name, f: nat): Option<FibUpdate> {
    var i := PositionOf(list, n, f);
    if i < |list| then Some(list[i]) else None
  }

  /** Replace the update with the same name and face in place, or append. */
  function Put(list: seq<FibUpdate>, u: FibUpdate): seq<FibUpdate> {
    var i := PositionOf(list, u.name, u.faceId);
    if i < |list| then list[i := list[i].(action := u.action, cost := u.cost)] else list + [u]
  }

  function Add(w: Lists, u: FibUpdate): Lists {
    if u.faceId == w.batchFaceId then w.(batch := Put(w.batch, u)) else w.(nonBatch := Put(w.nonBatch, u))
  }

  predicate UniqueKeys(list: seq<FibUpdate>) {
    forall i, j :: 0 <= i < j < |list| ==> !(list[i].name == list[j].name && list[i].faceId == list[j].faceId)
  }

  /** At most one update per name and face, and the lists split by the batch face. */
  predicate ListsOk(w: Lists) {
    UniqueKeys(w.batch) && UniqueKeys(w.nonBatch) &&
    (forall i :: 0 <= i < |w.batch| ==> w.batch[i].faceId == w.batchFaceId) &&
    (forall i :: 0 <= i < |w.nonBatch| ==> w.nonBatch[i].faceId != w.batchFaceId)
  }

  /** The pending update for a name and face. */
  function Pending(w: Lists, n: Name, f: nat): Option<FibUpdate> {
    Lookup(if f == w.batchFaceId then w.batch else w.nonBatch, n, f)
  }

  lemma LookupUnique(list: seq<FibUpdate>, i: nat)
    requires UniqueKeys(list) && i < |list|
    ensures Lookup(list, list[i].name, list[i].faceId) == Some(list[i])
  {
  }

  lemma LookupNone(list: seq<FibUpdate>, n: Name, f: nat)
    ensures Lookup(list, n, f) == None <==> forall j :: 0 <= j < |list| ==> !(list[j].name == n && list[j].faceId == f)
  {
  }

  lemma PutLookup(list: seq<FibUpdate>, u: FibUpdate, n: Name, f: nat)
    requires UniqueKeys(list)
    ensures UniqueKeys(Put(list, u))
    ensures Lookup(Put(list, u), n, f) == if n == u.name && f == u.faceId then Some(u) else Lookup(list, n, f)
  {
    var i := PositionOf(list, u.name, u.faceId);
    var after := Put(list, u);
    assert forall j :: 0 <= j < |list| && j != i ==> after[j] == list[j];
    if n == u.name && f == u.faceId {
      LookupUnique(after, i);
    } else if Lookup(list, n, f) == None {
      LookupNone(list, n, f);
      LookupNone(after, n, f);
    } else {
      LookupUnique(after, PositionOf(list, n, f));
    }
  }

  /** addFibUpdate decides the pending update of its own name and face and of no other. */
  lemma AddPending(w: Lists, u: FibUpdate, n: Name, f: nat)
    requires ListsOk(w)
    ensures ListsOk(Add(w, u))
    ensures Pending(Add(w, u), n, f) == if n == u.name && f == u.faceId then Some(u) else Pending(w, n, f)
  {
    PutLookup(if u.faceId == w.batchFaceId then w.batch else w.nonBatch, u, n, f);
  }

  // ----- coalescing -----

  function AddAll(w: Lists, us: seq<FibUpdate>): Lists {
    if |us| == 0 then w else Add(AddAll(w, us[..|us| - 1]), us[|us| - 1])
  }

  /** The last update for a name and face in a sequence. */
  function LastFor(us: seq<FibUpdate>, n: Name, f: nat): Option<FibUpdate> {
    if |us| == 0 then None
    else
      var u := us[|us| - 1];
      if u.name == n && u.faceId == f then Some(u) else LastFor(us[..|us| - 1], n, f)
  }

  function Apply(fib: Fib, u: FibUpdate): Fib {
    match u.action
    case AddNextHop => fib[(u.name, u.faceId) := u.cost]
    case RemoveNextHop => fib - {(u.name, u.faceId)}
  }

  function ApplyAll(fib: Fib, us: seq<FibUpdate>): Fib {
    if |us| == 0 then fib else Apply(ApplyAll(fib, us[..|us| - 1]), us[|us| - 1])
  }

  /** What an update, if any, leaves at its name and face. */
  function Outcome(u: Option<FibUpdate>, before: Option<nat>): Option<nat> {
    match u
    case None => before
    case Some(v) => if v.action == AddNextHop then Some(v.cost) else None
  }

  lemma {:induction false} ApplyAllAt(fib: Fib, us: seq<FibUpdate>, n: Name, f: nat)
    ensures At(ApplyAll(fib, us), n, f) == Outcome(LastFor(us, n, f), At(fib, n, f))
  {
    if |us| > 0 {
      ApplyAllAt(fib, us[..|us| - 1], n, f);
    }
  }

  lemma {:induction false} AddAllPending(w: Lists, us: seq<FibUpdate>, n: Name, f: nat)
    requires ListsOk(w)
    ensures ListsOk(AddAll(w, us))
    ensures AddAll(w, us).batchFaceId == w.batchFaceId
    ensures Pending(AddAll(w, us), n, f) == if LastFor(us, n, f).Some? then LastFor(us, n, f) else Pending(w, n, f)
  {
    if |us| > 0 {
      AddAllPending(w, us[..|us| - 1], n, f);
      AddPending(AddAll(w, us[..|us| - 1]), us[|us| - 1], n, f);
    }
  }

  lemma {:induction false} LastForMember(us: seq<FibUpdate>, n: Name, f: nat)
    ensures LastFor(us, n, f) == None ==> forall u :: u in us ==> !(u.name == n && u.faceId == f)
    ensures LastFor(us, n, f).Some? ==>
              var u := LastFor(us, n, f).value;
              u in us && u.name == n && u.faceId == f
  {
    if |us| > 0 {
      LastForMember(us[..|us| - 1], n, f);
      assert us == us[..|us| - 1] + [us[|us| - 1]];
    }
  }

  lemma PendingMember(w: Lists, u: FibUpdate)
    requires ListsOk(w)
    ensures u in w.batch || u in w.nonBatch <==> Pending(w, u.name, u.faceId) == Some(u)
  {
    if u in w.batch {
      var i :| 0 <= i < |w.batch| && w.batch[i] == u;
      LookupUnique(w.batch, i);
    } else if u in w.nonBatch {
      var i :| 0 <= i < |w.nonBatch| && w.nonBatch[i] == u;
      LookupUnique(w.nonBatch, i);
    }
  }

  /** Sending the updates of both lists in any order does to the FIB what the pending updates say. */
  lemma AnyOrderAt(w: Lists, sent: seq<FibUpdate>, fib: Fib, n: Name, f: nat)
    requires ListsOk(w) && multiset(sent) == multiset(w.batch + w.nonBatch)
    ensures At(ApplyAll(fib, sent), n, f) == Outcome(Pending(w, n, f), At(fib, n, f))
  {
    ApplyAllAt(fib, sent, n, f);
    LastForMember(sent, n, f);
    var last := LastFor(sent, n, f);
    assert forall u :: u in sent <==> u in multiset(sent);
    assert forall u :: u in w.batch + w.nonBatch <==> u in multiset(w.batch + w.nonBatch);
    if last.Some? {
      PendingMember(w, last.value);
    } else if Pending(w, n, f).Some? {
      PendingMember(w, Pending(w, n, f).value);
    }
  }

  lemma SameFib(a: Fib, b: Fib)
    requires forall n: Name, f: nat :: At(a, n, f) == At(b, n, f)
    ensures a == b
  {
    forall key: (Name, nat)
      ensures key in a <==> key in b
      ensures key in a ==> a[key] == b[key]
    {
      assert At(a, key.0, key.1) == At(b, key.0, key.1);
    }
  }

  lemma CoalescedAt(w0: Lists, us: seq<FibUpdate>, sent: seq<FibUpdate>, fib: Fib, n: Name, f: nat)
    requires w0.batch == [] && w0.nonBatch == []
    requires multiset(sent) == multiset(AddAll(w0, us).batch + AddAll(w0, us).nonBatch)
    ensures ListsOk(AddAll(w0, us))
    ensures At(ApplyAll(fib, sent), n, f) == At(ApplyAll(fib, us), n, f)
  {
    AddAllPending(w0, us, n, f);
    AnyOrderAt(AddAll(w0, us), sent, fib, n, f);
    ApplyAllAt(fib, us, n, f);
  }

  /** Coalescing is sound: both lists, in any order, have the effect of the original calls in order. */
  lemma CoalescingSound(w0: Lists, us: seq<FibUpdate>, sent: seq<FibUpdate>, fib: Fib)
    requires w0.batch == [] && w0.nonBatch == []
    requires multiset(sent) == multiset(AddAll(w0, us).batch + AddAll(w0, us).nonBatch)
    ensures ListsOk(AddAll(w0, us))
    ensures ApplyAll(fib, sent) == ApplyAll(fib, us)
  {
    CoalescedAt(w0, us, sent, fib, [], 0);
    forall n: Name, f: nat
      ensures At(ApplyAll(fib, sent), n, f) == At(ApplyAll(fib, us), n, f)
    {
      CoalescedAt(w0, us, sent, fib, n, f);
    }
    SameFib(ApplyAll(fib, sent), ApplyAll(fib, us));
  }

  // ----- what a computation records for one name and face -----

  /** The changes of inherited records for a name and face, in order. */
  function RecordsFor(records: seq<RibUpdate>, n: Name, f: nat): seq<RibUpdate> {
    if |records| == 0 then []
    else
      var u := records[|records| - 1];
      RecordsFor(records[..|records| - 1], n, f) + if u.name == n && u.route.faceId == f then [u] else []
  }

  datatype Cell = Cell(pending: Option<FibUpdate>, records: seq<RibUpdate>)

  function CellAt(w: Lists, n: Name, f: nat): Cell {
    Cell(Pending(w, n, f), RecordsFor(w.records, n, f))
  }

  /** after differs from before at one name and face only, where it holds c. */
  ghost predicate ChangedAt(before: Lists, after: Lists, n: Name, f: nat, c: Cell) {
    ListsOk(after) && after.batchFaceId == before.batchFaceId &&
    forall m: Name, g: nat :: CellAt(after, m, g) == if m == n && g == f then c else CellAt(before, m, g)
  }

  lemma AddChanges(w: Lists, u: FibUpdate)
    requires ListsOk(w)
    ensures ChangedAt(w, Add(w, u), u.name, u.faceId, CellAt(w, u.name, u.faceId).(pending := Some(u)))
  {
    forall m: Name, g: nat
      ensures CellAt(Add(w, u), m, g) ==
              if m == u.name && g == u.faceId then CellAt(w, u.name, u.faceId).(pending := Some(u)) else CellAt(w, m, g)
    {
      AddPending(w, u, m, g);
    }
    AddPending(w, u, [], 0);
  }

  lemma RecordChanges(w: Lists, r: RibUpdate, u: FibUpdate)
    requires ListsOk(w) && r.name == u.name && r.route.faceId == u.faceId
    ensures ChangedAt(w, Add(w.(records := w.records + [r]), u), u.name, u.faceId,
                      Cell(Some(u), CellAt(w, u.name, u.faceId).records + [r]))
  {
    var w' := w.(records := w.records + [r]);
    AddChanges(w', u);
    assert w'.records[..|w'.records| - 1] == w.records;
    assert forall m: Name, g: nat {:trigger CellAt(w, m, g)} {:trigger CellAt(w', m, g)} ::
        CellAt(w', m, g) == CellAt(w, m, g).(records := RecordsFor(w'.records, m, g));
  }
}
