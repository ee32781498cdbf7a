/** Runs of the update protocol, from a settled RIB and FIB, at whose end it breaks its promises. */
module ProtocolLimits {
  import opened Wrappers
  import opened Names
  import opened Routes
  import opened RibModel
  import opened FibUpdates
  import opened FibWalk
  import opened FibAgreement
  import opened FibRecords
  import opened FibRuns
  import opened FibLimits
  import opened UpdateProtocol

  /** The first update of all: its commands for the batch face go out at once. */
  function AfterFirst(t: Table, fib: Fib, u: RibUpdate, w: Lists): State {
    State(t, [u], [], true, w, Commands(w.batch, Batch(0, u)), multiset{}, fib, [Started(Batch(0, u), t, fib, w)])
  }

  lemma FirstSubmitted(t: Table, fib: Fib, u: RibUpdate, w: Lists, compute: Calculation)
    requires compute(t, u) == w && |w.batch| > 0
    ensures Step(Initial(t, fib), Submit(u), compute) == AfterFirst(t, fib, u, w)
  {
    var b, s := Batch(0, u), AddUpdateToQueue(Initial(t, fib), u);
    assert s.queue == [b] && s.queue[1..] == [] && s.submitted == [u];
    var s1 := State(t, [u], [], true, w, multiset{}, multiset{}, fib, [Started(b, t, fib, w)]);
    assert s.log + [Started(b, t, fib, w)] == s1.log;
    assert SendBatchFromQueue(s, compute) == SendUpdatesForBatchFaceId(s1, b, compute);
    assert s1.waiting + Commands(w.batch, b) == Commands(w.batch, b);
  }

  // ----- a retried removal -----

  const GONE: Route := Plain(1, 0, 10)
  const REMOVAL: RibUpdate := RibUpdate(Unregister, [A], GONE)
  const REMOVAL_LISTS: Lists := Lists(1, [RemoveUpdate([A], 1)], [], [])

  function OneRouteTable(): Table {
    map[[A] := Entry([GONE], [], 0)]
  }

  function OneRouteFib(): Fib {
    map[([A], 1) := 10]
  }

  lemma OneRouteSettled()
    ensures Settled(OneRouteTable(), OneRouteFib())
  {
    var t := OneRouteTable();
    assert [A][..0] == [];
    forall n: Name, f: nat
      ensures At(OneRouteFib(), n, f) == Wanted(t, n, f) && !Inherits(t, n, f) && CountAt(t, n, f) == 0
    {
      assert n == [A] ==> ScanUp(t, n, 0, 1, f) == ScanUp(t, n, 0, 0, f) == Through;
      assert FindFace([GONE], f).Some? <==> f == 1;
    }
  }

  lemma RemovalComputed()
    ensures Fits(DropRoute([A], 0), OneRouteTable()) && Computed(DropRoute([A], 0), OneRouteTable(), REMOVAL_LISTS)
  {
    var t, w := OneRouteTable(), REMOVAL_LISTS;
    assert [A][..0] == [] && CaptureCount([GONE]) == 0;
    forall d: Name, f: nat
      ensures CellAt(w, d, f) == ChangeCell(DropRoute([A], 0), t, d, f)
    {
      assert ScanUp(t, [A], 0, 1, f) == ScanUp(t, [A], 0, 0, f) == Through;
      assert [A] < d ==> d !in t;
      assert w.batch[1..] == [];
    }
  }

  lemma RemovalSent(c: Command)
    requires c == Command(RemoveUpdate([A], 1), Batch(0, REMOVAL), RemoveNextHop, 0)
    ensures Commands(REMOVAL_LISTS.batch, Batch(0, REMOVAL)) == multiset{c}
    ensures RemoveEqual(REMOVAL_LISTS.batch, c.update) == []
    ensures Erased(OneRouteTable(), [A], GONE) == map[]
  {
    assert REMOVAL_LISTS.batch[1..] == [];
    assert Commands([], Batch(0, REMOVAL)) == multiset{};
  }

  /** The last response: both lists are empty, the entry leaves the RIB, and nothing is queued. */
  lemma RemovalAcknowledged(s: State, c: Command, compute: Calculation)
    requires s.rib == OneRouteTable() && s.queue == [] && s.inProgress && s.work == REMOVAL_LISTS
    requires c.batch == Batch(0, REMOVAL) && c.update == RemoveUpdate([A], 1)
    ensures var s' := Step(s, Ack(c), compute);
            !s'.inProgress && s'.rib == map[] && s'.fib == s.fib
  {
    RemovalSent(Command(c.update, c.batch, RemoveNextHop, 0));
    var s1 := s.(replied := s.replied - multiset{c}, work := s.work.(batch := []));
    assert Step(s, Ack(c), compute) == SendUpdatesForNonBatchFaceId(s1, c.batch, compute);
    assert ApplyRecords(TableUpdated(s.rib, REMOVAL), []) == map[];
    var s2 := s1.(rib := map[], inProgress := false, log := s1.log + [Finished(c.batch, map[], s.fib, true)]);
    assert OnFibUpdateSuccess(s1, c.batch, compute) == SendBatchFromQueue(s2, compute) == s2;
  }

  /** From the one command under way to the end of the batch. */
  lemma RemovalRetried(s1: State, c: Command, compute: Calculation)
    requires s1 == AfterFirst(OneRouteTable(), OneRouteFib(), REMOVAL, REMOVAL_LISTS) && s1.waiting == multiset{c}
    requires c == Command(RemoveUpdate([A], 1), Batch(0, REMOVAL), RemoveNextHop, 0)
    ensures var retry := Retried(c);
            var s2 := Step(s1, Timeout(c), compute);
            var s3 := Step(s2, Execute(retry), compute);
            var s4 := Step(s3, Ack(retry), compute);
            Enabled(s1, Timeout(c)) && Enabled(s2, Execute(retry)) && Enabled(s3, Ack(retry)) &&
            !s4.inProgress && s4.rib == map[] && s4.fib == map[([A], 1) := 0] && !Agrees(s4.fib, s4.rib)
  {
    var retry := Retried(c);
    var s2 := s1.(waiting := multiset{retry});
    assert Step(s1, Timeout(c), compute) == s2;
    var s3 := s2.(waiting := multiset{}, replied := multiset{retry}, fib := map[([A], 1) := 0]);
    assert Step(s2, Execute(retry), compute) == s3 by {
      assert retry.update.(action := AddNextHop) == AddUpdate([A], 1, 0);
    }
    assert Enabled(s1, Timeout(c)) && Enabled(s2, Execute(retry)) && Enabled(s3, Ack(retry));
    RemovalAcknowledged(s3, retry, compute);
    var s4 := Step(s3, Ack(retry), compute);
    assert !s4.inProgress && s4.rib == map[] && s4.fib == map[([A], 1) := 0];
    assert At(s4.fib, [A], 1) == Some(0) && Wanted(s4.rib, [A], 1) == None;
  }

  /**
   * The only route of "/A" is unregistered, and the response to the removal times out. The retry is sent as an
   * addition: when it is acknowledged the RIB is empty and the FIB has a next hop of cost 0.
   */
  lemma RetriedRemoval(compute: Calculation)
    requires CalculationOk(compute) && compute(OneRouteTable(), REMOVAL) == REMOVAL_LISTS
    ensures var t, fib := OneRouteTable(), OneRouteFib();
            var c := Command(RemoveUpdate([A], 1), Batch(0, REMOVAL), RemoveNextHop, 0);
            var retry := Retried(c);
            var s0 := Initial(t, fib);
            var s1 := Step(s0, Submit(REMOVAL), compute);
            var s2 := Step(s1, Timeout(c), compute);
            var s3 := Step(s2, Execute(retry), compute);
            var s4 := Step(s3, Ack(retry), compute);
            Settled(t, fib) && Fits(DropRoute([A], 0), t) && Computed(DropRoute([A], 0), t, REMOVAL_LISTS) &&
            Enabled(s1, Timeout(c)) && Enabled(s2, Execute(retry)) && Enabled(s3, Ack(retry)) &&
            !s4.inProgress && s4.rib == map[] && s4.fib == map[([A], 1) := 0] && !Agrees(s4.fib, s4.rib)
  {
    var t, fib := OneRouteTable(), OneRouteFib();
    OneRouteSettled();
    RemovalComputed();
    FirstSubmitted(t, fib, REMOVAL, REMOVAL_LISTS, compute);
    var c := Command(RemoveUpdate([A], 1), Batch(0, REMOVAL), RemoveNextHop, 0);
    RemovalSent(c);
    RemovalRetried(AfterFirst(t, fib, REMOVAL, REMOVAL_LISTS), c, compute);
  }

  // ----- two rejections -----

  const TAKEN: Route := Plain(1, 1, 10)
  const ADDITION: RibUpdate := RibUpdate(Register, [A], TAKEN)
  const ADDITION_LISTS: Lists :=
    Lists(1, [AddUpdate([A], 1, 10), AddUpdate([A, B], 1, 10)], [], [RibUpdate(Register, [A, B], TAKEN)])

  function ChildTable(): Table {
    map[[A, B] := Entry([Plain(3, 0, 30)], [], 0)]
  }

  function ChildFib(): Fib {
    map[([A, B], 3) := 30]
  }

  lemma ChildSettled()
    ensures Settled(ChildTable(), ChildFib())
  {
    var t := ChildTable();
    forall n: Name, f: nat
      ensures At(ChildFib(), n, f) == Wanted(t, n, f) && !Inherits(t, n, f) && CountAt(t, n, f) == 0
    {
      if n == [A, B] {
        NothingAbove(n, f);
      }
      assert FindFace([Plain(3, 0, 30)], f).Some? <==> f == 3;
    }
  }

  lemma NothingAbove(n: Name, f: nat)
    requires n <= [A, B]
    ensures Nearest(ChildTable(), n, f) == None
  {
    var t := ChildTable();
    forall j | 0 <= j < |n|
      ensures n[..j] !in t
    {
      assert |n[..j]| == j;
    }
    ScanEnd(t, n, |n|, f);
  }

  lemma AdditionComputed()
    ensures Computed(AddName([A], TAKEN), ChildTable(), ADDITION_LISTS)
  {
    var t, w := ChildTable(), ADDITION_LISTS;
    assert [A] < [A, B] && w.batch[1..] == [AddUpdate([A, B], 1, 10)] && w.batch[1..][1..] == [];
    forall d: Name, f: nat
      ensures CellAt(w, d, f) == ChangeCell(AddName([A], TAKEN), t, d, f)
    {
      NothingAbove([A], f);
      assert FindFace([Plain(3, 0, 30)], f).Some? <==> f == 3;
      assert RecordsFor(w.records[..0], d, f) == [];
    }
  }

  lemma AdditionSent(c: Command, d: Command)
    requires c == Command(AddUpdate([A], 1, 10), Batch(0, ADDITION), AddNextHop, 0)
    requires d == Command(AddUpdate([A, B], 1, 10), Batch(0, ADDITION), AddNextHop, 0)
    ensures Commands(ADDITION_LISTS.batch, Batch(0, ADDITION)) == multiset{c, d}
  {
    var batch := ADDITION_LISTS.batch;
    assert batch[1..] == [d.update] && batch[1..][1..] == [];
    assert Commands(batch[1..], c.batch) == multiset{d} + Commands([], c.batch) == multiset{d};
    assert Commands(batch, c.batch) == multiset{c} + multiset{d};
  }

  /** The first rejection ends the batch, and the second one ends it again. */
  lemma BothRejected(s1: State, c: Command, d: Command, compute: Calculation)
    requires s1 == AfterFirst(ChildTable(), ChildFib(), ADDITION, ADDITION_LISTS) && s1.waiting == multiset{c, d}
    requires c.batch == Batch(0, ADDITION) == d.batch && c.update.faceId == 1 == d.update.faceId
    ensures var s2 := Step(s1, FaceNotFound(c), compute);
            var s3 := Step(s2, FaceNotFound(d), compute);
            var failure := Finished(c.batch, ChildTable(), ChildFib(), false);
            Enabled(s1, FaceNotFound(c)) && Enabled(s2, FaceNotFound(d)) && s3.log == s1.log + [failure, failure]
  {
    var failure := Finished(c.batch, ChildTable(), ChildFib(), false);
    assert s1.waiting - multiset{c} == multiset{d};
    var s2 := s1.(waiting := multiset{d}, inProgress := false, log := s1.log + [failure]);
    assert Step(s1, FaceNotFound(c), compute) == s2;
    var s3 := Step(s2, FaceNotFound(d), compute);
    assert s3.log == s1.log + [failure] + [failure];
  }

  /**
   * A child-inherit route under the new name "/A" puts two commands of its face out, for "/A" and "/A/B". When both are
   * rejected, the failure callback of their batch is called twice.
   */
  lemma TwoRejections(compute: Calculation)
    requires CalculationOk(compute) && compute(ChildTable(), ADDITION) == ADDITION_LISTS
    ensures var t, fib, b := ChildTable(), ChildFib(), Batch(0, ADDITION);
            var c := Command(AddUpdate([A], 1, 10), b, AddNextHop, 0);
            var d := Command(AddUpdate([A, B], 1, 10), b, AddNextHop, 0);
            var s0 := Initial(t, fib);
            var s1 := Step(s0, Submit(ADDITION), compute);
            var s2 := Step(s1, FaceNotFound(c), compute);
            var s3 := Step(s2, FaceNotFound(d), compute);
            Settled(t, fib) && Computed(AddName([A], TAKEN), t, ADDITION_LISTS) &&
            Enabled(s1, FaceNotFound(c)) && Enabled(s2, FaceNotFound(d)) &&
            s3.log == [Started(b, t, fib, ADDITION_LISTS), Finished(b, t, fib, false), Finished(b, t, fib, false)]
  {
    var t, fib, b := ChildTable(), ChildFib(), Batch(0, ADDITION);
    ChildSettled();
    AdditionComputed();
    FirstSubmitted(t, fib, ADDITION, ADDITION_LISTS, compute);
    var c := Command(AddUpdate([A], 1, 10), b, AddNextHop, 0);
    var d := Command(AddUpdate([A, B], 1, 10), b, AddNextHop, 0);
    AdditionSent(c, d);
    BothRejected(AfterFirst(t, fib, ADDITION, ADDITION_LISTS), c, d, compute);
  }
}
