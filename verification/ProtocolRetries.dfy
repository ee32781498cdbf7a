/** Removals that are retried as additions: the first one leaves the FIB wrong when its batch ends. */
module ProtocolRetries {
  import opened Wrappers
  import opened Names
  import opened Routes
  import opened RibModel
  import opened FibUpdates
  import opened FibAgreement
  import opened FibRecords
  import opened FibRuns
  import opened UpdateProtocol
  import opened ProtocolRuns

  /** A removal got no response in time. */
  predicate RetriesRemoval(e: Event) {
    e.Timeout? && e.command.update.action == RemoveNextHop
  }

  ghost predicate AllAdd(cs: multiset<Command>, u: FibUpdate) {
    forall c :: c in cs && c.update == u ==> c.verb == AddNextHop
  }

  /** The commands for u are additions, and once one was carried out the FIB has a next hop for u. */
  ghost predicate Poisoned(s: State, u: FibUpdate) {
    AllAdd(s.waiting, u) && AllAdd(s.replied, u) &&
    (Known(u, s.work, s.replied) ==> At(s.fib, u.name, u.faceId) == Some(u.cost))
  }

  /** The batch whose start ends the log `start` runs with a retried removal u, or ended with one. */
  ghost predicate Tainted(s: State, start: seq<LogEntry>, u: FibUpdate) {
    |start| > 0 && start <= s.log &&
    var e := start[|start| - 1];
    e.Started? && ListsOk(e.lists) && Pending(e.lists, u.name, u.faceId) == Some(u) && u.action == RemoveNextHop &&
    if |s.log| == |start| then
      s.inProgress && ListsWithin(s.work, e.lists) && s.rib == e.rib && s.work.records == e.lists.records &&
      (u in s.work.nonBatch ==> s.work.batch == []) && Poisoned(s, u)
    else EndedWrong(e, s.log[|start|], u)
  }

  ghost predicate EndedWrong(e: LogEntry, done: LogEntry, u: FibUpdate)
    requires e.Started?
  {
    done.Finished? && done.rib == ApplyRecords(TableUpdated(e.rib, e.batch.update), e.lists.records) &&
    At(done.fib, u.name, u.faceId) == Some(u.cost)
  }

  /** A pending removal that left a next hop behind is a disagreement, since the change wants none there. */
  lemma EndedWrongDisagrees(e: LogEntry, done: LogEntry, u: FibUpdate)
    requires e.Started? && QuietStart(e) && ListsOk(e.lists) && Settled(e.rib, e.fib) && EndedWrong(e, done, u)
    requires Pending(e.lists, u.name, u.faceId) == Some(u) && u.action == RemoveNextHop
    ensures !Agrees(done.fib, done.rib)
  {
    var ch :| Fits(ch, e.rib) && Quiet(ch, e.rib) && AsUpdate(ch, e.rib) == e.batch.update &&
              Computed(ch, e.rib, e.lists);
    var n, f := u.name, u.faceId;
    ChangeIsUpdate(ch, e.rib, n, f);
    assert CellAt(e.lists, n, f) == ChangeCell(ch, e.rib, n, f);
    assert !GoesWrong(ch, e.rib, n, f);
    FibRight(ch, e.rib, n, f);
    SettledAt(ch, e.rib, e.lists, n, f);
    assert Wanted(done.rib, n, f) == None;
  }

  // ----- one step -----

  /** If c is the only command for its update, then after the timeout its retry is, and it was not carried out. */
  lemma RetriedOnly(waiting: multiset<Command>, replied: multiset<Command>, c: Command)
    requires c in waiting + replied && (waiting + replied)[c] == 1
    requires forall d :: d in waiting + replied && d.update == c.update ==> d == c
    ensures c in waiting ==>
              AllAdd(waiting - multiset{c} + multiset{Retried(c)}, c.update) && !RepliedTo(c.update, replied)
    ensures c !in waiting ==>
              AllAdd(waiting + multiset{Retried(c)}, c.update) && !RepliedTo(c.update, replied - multiset{c})
  {
    forall d | d in waiting || d in replied
      ensures d.update == c.update ==> d == c
    {
      assert d in waiting + replied;
    }
  }

  /** The command that took the place of a timed-out removal is the only one for it, and was not carried out. */
  lemma TimeoutPoisons(s: State, c: Command, compute: Calculation, rib0: Table)
    requires Inv(s, rib0) && Enabled(s, Timeout(c)) && Progress(s) && c.update.action == RemoveNextHop
    ensures Tainted(Step(s, Timeout(c), compute), s.log, c.update)
  {
    var last, cs := s.log[|s.log| - 1], s.waiting + s.replied;
    assert c in cs && s.inProgress;
    LiveUpdate(s, c, rib0);
    PendingMember(last.lists, c.update);
    TimeoutState(s, c, compute);
    assert Expected(c, cs, Live(s.work), last.batch);
    RetriedOnly(s.waiting, s.replied, c);
  }

  /** Different pending updates are for different names or faces. */
  lemma OtherKey(w: Lists, u: FibUpdate, v: FibUpdate)
    requires Pending(w, u.name, u.faceId) == Some(u) && Pending(w, v.name, v.faceId) == Some(v) && u != v
    ensures (u.name, u.faceId) != (v.name, v.faceId)
  {
  }

  /** An addition for u, or a command for another name or face, is carried out. */
  lemma ExecutedPoisoned(s: State, c: Command, u: FibUpdate)
    requires Poisoned(s, u) && c in s.waiting
    requires c.update == u || (u.name, u.faceId) != (c.update.name, c.update.faceId)
    ensures Poisoned(s.(fib := Apply(s.fib, c.update.(action := c.verb)), waiting := s.waiting - multiset{c},
                        replied := s.replied + multiset{c}), u)
  {
    if c.update != u && RepliedTo(u, s.replied + multiset{c}) {
      var d :| d in s.replied + multiset{c} && d.update == u;
      assert d in s.replied;
    }
  }

  lemma ExecuteTainted(s: State, c: Command, compute: Calculation, start: seq<LogEntry>, u: FibUpdate, rib0: Table)
    requires Inv(s, rib0) && s.inProgress && c in s.waiting && Tainted(s, start, u) && |s.log| == |start|
    ensures Tainted(Step(s, Execute(c), compute), start, u)
  {
    var e := start[|start| - 1];
    assert c in s.waiting + s.replied;
    LiveUpdate(s, c, rib0);
    PendingMember(e.lists, c.update);
    if c.update != u {
      OtherKey(e.lists, u, c.update);
    }
    ExecutedPoisoned(s, c, u);
  }

  lemma TimeoutTainted(s: State, c: Command, compute: Calculation, start: seq<LogEntry>, u: FibUpdate)
    requires Enabled(s, Timeout(c)) && Tainted(s, start, u) && |s.log| == |start|
    ensures Tainted(Step(s, Timeout(c), compute), start, u)
  {
    TimeoutState(s, c, compute);
    var s' := Step(s, Timeout(c), compute);
    assert RepliedTo(u, s'.replied) ==> RepliedTo(u, s.replied);
  }

  /** The acknowledged update is struck, and if it is u it was carried out. */
  lemma StruckTainted(s: State, s0: State, c: Command, start: seq<LogEntry>, u: FibUpdate)
    requires Tainted(s, start, u) && |s.log| == |start| && c in s.replied
    requires s0 == s.(replied := s.replied - multiset{c})
    ensures Tainted(Struck(s0, c.update), start, u)
  {
    var s1 := Struck(s0, c.update);
    forall v
      ensures v in s1.work.batch ==> v in s.work.batch
      ensures v in s1.work.nonBatch ==> v in s.work.nonBatch
      ensures v != c.update && v in s.work.batch ==> v in s1.work.batch
      ensures v != c.update && v in s.work.nonBatch ==> v in s1.work.nonBatch
    {
      RemoveEqualMembers(s.work.batch, c.update, v);
      RemoveEqualMembers(s.work.nonBatch, c.update, v);
    }
    assert RepliedTo(c.update, s.replied);
    assert RepliedTo(u, s1.replied) ==> RepliedTo(u, s.replied);
    assert s.work.batch == [] ==> s1.work.batch == [];
  }

  lemma SendNonBatchTainted(s: State, b: Batch, compute: Calculation, start: seq<LogEntry>, u: FibUpdate)
    requires Tainted(s, start, u) && |s.log| == |start| && u !in s.work.batch && u !in s.work.nonBatch
    requires ListsOk(s.work) && b == start[|start| - 1].batch
    ensures Tainted(SendUpdatesForNonBatchFaceId(s, b, compute), start, u)
  {
    if |s.work.nonBatch| > 0 {
      forall c | c in Commands(s.work.nonBatch, b)
        ensures c.update != u
      {
        CommandsOf(s.work.nonBatch, b, c);
      }
    } else {
      SuccessTainted(s, b, compute, start, u);
    }
  }

  lemma SuccessTainted(s: State, b: Batch, compute: Calculation, start: seq<LogEntry>, u: FibUpdate)
    requires Tainted(s, start, u) && |s.log| == |start| && u !in s.work.batch && u !in s.work.nonBatch
    requires b == start[|start| - 1].batch
    ensures Tainted(OnFibUpdateSuccess(s, b, compute), start, u)
  {
    var rib := ApplyRecords(TableUpdated(s.rib, b.update), s.work.records);
    var s1 := s.(rib := rib, inProgress := false, log := s.log + [Finished(b, rib, s.fib, true)]);
    SendBatchSucceeds(s1, compute);
    assert s1.log[|start|] == Finished(b, rib, s.fib, true);
  }

  /** The batch goes on in its phase, or in the second phase, or ends. */
  lemma StruckEnds(s0: State, s1: State, c: Command, compute: Calculation, start: seq<LogEntry>, u: FibUpdate)
    requires s1 == Struck(s0, c.update) && (c.update.faceId == s0.work.batchFaceId <==> |s0.work.batch| > 0)
    requires Tainted(s1, start, u) && |s1.log| == |start| && ListsOk(s1.work) && c.batch == start[|start| - 1].batch
    requires u in s1.work.nonBatch ==> s0.work.batch == []
    ensures Tainted(OnUpdateSuccess(s0, c, compute), start, u)
  {
    if |s0.work.batch| > 0 && |s1.work.batch| == 0 {
      SendNonBatchTainted(s1, c.batch, compute, start, u);
    } else if |s0.work.batch| == 0 && |s1.work.nonBatch| == 0 {
      SuccessTainted(s1, c.batch, compute, start, u);
    }
  }

  lemma AckPhase(s: State, s0: State, c: Command, rib0: Table)
    requires Inv(s, rib0) && s.inProgress && c in s.replied && s0 == s.(replied := s.replied - multiset{c})
    ensures c.batch == s.log[|s.log| - 1].batch && (c.update.faceId == s0.work.batchFaceId <==> |s0.work.batch| > 0)
    ensures ListsOk(Struck(s0, c.update).work)
  {
    var cs := s.waiting + s.replied;
    assert c in cs && s0.waiting + s0.replied == cs - multiset{c};
    SameLog(s, s0, rib0);
    DonePhase(s0, c, cs, rib0);
    ListsAfterRemove(s.work, c.update);
  }

  lemma AckTainted(s: State, c: Command, compute: Calculation, start: seq<LogEntry>, u: FibUpdate, rib0: Table)
    requires Inv(s, rib0) && s.inProgress && c in s.replied && Tainted(s, start, u) && |s.log| == |start|
    ensures Tainted(Step(s, Ack(c), compute), start, u)
  {
    var s0 := s.(replied := s.replied - multiset{c});
    AckPhase(s, s0, c, rib0);
    AckTaintedFrom(s, s0, c, compute, start, u);
    assert Step(s, Ack(c), compute) == OnUpdateSuccess(s0, c, compute);
  }

  lemma AckTaintedFrom(s: State, s0: State, c: Command, compute: Calculation, start: seq<LogEntry>, u: FibUpdate)
    requires Tainted(s, start, u) && |s.log| == |start| && c in s.replied
    requires s0 == s.(replied := s.replied - multiset{c}) && ListsOk(Struck(s0, c.update).work)
    requires c.batch == s.log[|s.log| - 1].batch && (c.update.faceId == s0.work.batchFaceId <==> |s0.work.batch| > 0)
    ensures Tainted(OnUpdateSuccess(s0, c, compute), start, u)
  {
    StruckTainted(s, s0, c, start, u);
    RemoveEqualMembers(s.work.nonBatch, c.update, u);
    StruckEnds(s0, Struck(s0, c.update), c, compute, start, u);
  }

  /** Whatever happens but a rejection, the batch stays tainted, and so does the log once it has ended. */
  lemma StepTainted(s: State, e: Event, compute: Calculation, start: seq<LogEntry>, u: FibUpdate, rib0: Table)
    requires Inv(s, rib0) && Enabled(s, e) && !e.FaceNotFound? && Tainted(s, start, u)
    ensures Tainted(Step(s, e, compute), start, u)
  {
    if |s.log| > |start| {
      StepOutcome(s, e, compute);
    } else {
      match e
      case Submit(v) =>
      case FaceRemoved(f, routes) => QueueAllLog(s, FaceUpdates(routes));
      case Execute(c) => ExecuteTainted(s, c, compute, start, u, rib0);
      case Ack(c) => AckTainted(s, c, compute, start, u, rib0);
      case Timeout(c) => TimeoutTainted(s, c, compute, start, u);
    }
  }

  // ----- runs -----

  lemma {:induction false} RunTainted(states: seq<State>, events: seq<Event>, compute: Calculation, rib0: Table,
                                      fib0: Fib, i: nat, k: nat, start: seq<LogEntry>, u: FibUpdate)
    requires IsRunFrom(states, events, compute, rib0, fib0) && i <= k <= |events|
    requires (forall j :: 0 <= j < k ==> !events[j].FaceNotFound?) && Tainted(states[i], start, u)
    ensures Tainted(states[k], start, u)
    decreases k
  {
    if i < k {
      RunTainted(states, events, compute, rib0, fib0, i, k - 1, start, u);
      RunKeeps(states, events, compute, rib0, fib0, k - 1);
      assert Inv(states[k - 1], rib0);
      StepTainted(states[k - 1], events[k - 1], compute, start, u, rib0);
    }
  }

  lemma {:induction false} LogsGrow(states: seq<State>, events: seq<Event>, compute: Calculation, i: nat, k: nat)
    requires IsRun(states, events, compute) && i <= k <= |events|
    ensures states[i].log <= states[k].log
    decreases k
  {
    if i < k {
      LogsGrow(states, events, compute, i, k - 1);
      StepOutcome(states[k - 1], events[k - 1], compute);
    }
  }

  /** The first retried removal of a run leaves the FIB wrong when its batch has ended. */
  lemma RetryDisagrees(states: seq<State>, events: seq<Event>, compute: Calculation, rib0: Table, fib0: Fib, k: nat,
                       i: nat) returns (l: nat)
    requires IsRunFrom(states, events, compute, rib0, fib0) && i < k <= |events| && Settled(rib0, fib0)
    requires QuietLog(states[k].log) && !states[k].inProgress && forall j :: 0 <= j < k ==> !events[j].FaceNotFound?
    requires RetriesRemoval(events[i]) && forall j :: 0 <= j < i ==> !RetriesRemoval(events[j])
    ensures l < |states[k].log| && states[k].log[l].Finished?
    ensures !Agrees(states[k].log[l].fib, states[k].log[l].rib)
  {
    var s, c, u, start := states[i], events[i].command, events[i].command.update, states[i].log;
    LogsGrow(states, events, compute, i, k);
    assert forall j :: 0 <= j < i ==> Reliable(events[j]);
    QuietPrefix(start, states[k].log);
    RunSettles(states, events, compute, rib0, fib0, i);
    RunKeeps(states, events, compute, rib0, fib0, k);
    assert Inv(s, rib0) && Inv(states[k], rib0);
    assert c in s.waiting + s.replied;
    TimeoutPoisons(s, c, compute, rib0);
    RunTainted(states, events, compute, rib0, fib0, i + 1, k, start, u);
    l := |start|;
    var e := start[l - 1];
    assert states[k].log[l - 1] == e && QuietStart(e);
    EndedWrongDisagrees(e, states[k].log[l], u);
  }

  /**
   * In every interleaving without rejections, once no batch is under way: the FIB agreed with the RIB after every batch
   * if and only if no removal was retried.
   */
  lemma AgreementWithoutRetries(states: seq<State>, events: seq<Event>, compute: Calculation, rib0: Table, fib0: Fib,
                                k: nat)
    requires IsRunFrom(states, events, compute, rib0, fib0) && k <= |events| && Settled(rib0, fib0)
    requires QuietLog(states[k].log) && !states[k].inProgress && forall i :: 0 <= i < k ==> !events[i].FaceNotFound?
    ensures var log := states[k].log;
            (forall i :: 0 <= i < |log| && log[i].Finished? ==> Agrees(log[i].fib, log[i].rib)) <==>
              forall i :: 0 <= i < k ==> !RetriesRemoval(events[i])
  {
    if forall i :: 0 <= i < k ==> !RetriesRemoval(events[i]) {
      AgreementAtRest(states, events, compute, rib0, fib0, k);
    } else {
      var i := FirstRetry(events, k);
      var l := RetryDisagrees(states, events, compute, rib0, fib0, k, i);
    }
  }

  lemma {:induction false} FirstRetry(events: seq<Event>, k: nat) returns (i: nat)
    requires k <= |events| && exists j :: 0 <= j < k && RetriesRemoval(events[j])
    ensures i < k && RetriesRemoval(events[i]) && forall j :: 0 <= j < i ==> !RetriesRemoval(events[j])
  {
    if exists j :: 0 <= j < k - 1 && RetriesRemoval(events[j]) {
      i := FirstRetry(events, k - 1);
    } else {
      i := k - 1;
    }
  }
}
