/** How often a command is sent again: the attempts that its callbacks carry (fib-updater.cpp, onUpdateError). */
module ProtocolTimeouts {
  import opened Wrappers
  import opened Names
  import opened Routes
  import opened RibModel
  import opened FibUpdates
  import opened UpdateProtocol
  import opened ProtocolRuns

  /** The time-outs of an update of a batch in the first k steps. */
  function Timeouts(events: seq<Event>, k: nat, b: Batch, u: FibUpdate): nat
    requires k <= |events|
  {
    if k == 0 then 0
    else
      var e := events[k - 1];
      Timeouts(events, k - 1, b, u) + if e.Timeout? && e.command.batch == b && e.command.update == u then 1 else 0
  }

  // ----- which commands a step sends -----

  lemma {:induction false} NewCommand(list: seq<FibUpdate>, b: Batch, c: Command)
    requires c in Commands(list, b)
    ensures c.batch == b && c.nTimeouts == 0 && c.update in list
  {
    assert list == [list[0]] + list[1..];
    if c != Command(list[0], b, list[0].action, 0) {
      NewCommand(list[1..], b, c);
    }
  }

  /** A first attempt for a batch that was queued. */
  predicate First(queue: seq<Batch>, c: Command) {
    c.nTimeouts == 0 && c.batch in queue
  }

  lemma SendBatchNew(s: State, compute: Calculation, c: Command)
    ensures var s' := SendBatchFromQueue(s, compute);
            s'.replied == s.replied && (c in s'.waiting ==> c in s.waiting || First(s.queue, c))
    decreases |s.queue|, 0
  {
    if |s.queue| > 0 && !s.inProgress {
      var b := s.queue[0];
      var w := compute(s.rib, b.update);
      var s1 := s.(inProgress := true, queue := s.queue[1..], work := w, log := s.log + [Started(b, s.rib, s.fib, w)]);
      if |w.batch| > 0 {
        if c in Commands(w.batch, b) {
          NewCommand(w.batch, b, c);
        }
      } else {
        NonBatchNew(s1, b, compute, c);
      }
    }
  }

  lemma NonBatchNew(s: State, b: Batch, compute: Calculation, c: Command)
    ensures var s' := SendUpdatesForNonBatchFaceId(s, b, compute);
            s'.replied == s.replied &&
            (c in s'.waiting ==>
               c in s.waiting || First(s.queue, c) || (c.nTimeouts == 0 && c.batch == b && c.update in s.work.nonBatch))
    decreases |s.queue|, 2
  {
    if |s.work.nonBatch| > 0 {
      if c in Commands(s.work.nonBatch, b) {
        NewCommand(s.work.nonBatch, b, c);
      }
    } else {
      SuccessNew(s, b, compute, c);
    }
  }

  lemma SuccessNew(s: State, b: Batch, compute: Calculation, c: Command)
    ensures var s' := OnFibUpdateSuccess(s, b, compute);
            s'.replied == s.replied && (c in s'.waiting ==> c in s.waiting || First(s.queue, c))
    decreases |s.queue|, 1
  {
    var rib := ApplyRecords(TableUpdated(s.rib, b.update), s.work.records);
    SendBatchNew(s.(rib := rib, inProgress := false, log := s.log + [Finished(b, rib, s.fib, true)]), compute, c);
  }

  /** A command that a response brings about: of a queued batch, or of the second phase of the running one. */
  predicate Second(s: State, d: Command, c: Command) {
    c.nTimeouts == 0 && c.batch == d.batch && c.update in s.work.nonBatch && d.update.faceId == s.work.batchFaceId
  }

  lemma DoneNew(s: State, d: Command, compute: Calculation, c: Command)
    ensures var s' := OnUpdateSuccess(s, d, compute);
            s'.replied == s.replied && (c in s'.waiting ==> c in s.waiting || First(s.queue, c) || Second(s, d, c))
    ensures var s' := OnFaceNotFound(s, d, compute);
            s'.replied == s.replied && (c in s'.waiting ==> c in s.waiting || First(s.queue, c) || Second(s, d, c))
  {
    NonBatchNew(s.(work := s.work.(batch := RemoveEqual(s.work.batch, d.update))), d.batch, compute, c);
    SuccessNew(s.(work := s.work.(nonBatch := RemoveEqual(s.work.nonBatch, d.update))), d.batch, compute, c);
    SendBatchNew(s.(inProgress := false, log := s.log + [Finished(d.batch, s.rib, s.fib, false)]), compute, c);
  }

  /** The queue from which a step may start batches. */
  function QueueAt(s: State, e: Event): seq<Batch> {
    match e
    case Submit(u) => AddUpdateToQueue(s, u).queue
    case FaceRemoved(f, routes) => AddAllToQueue(s, FaceUpdates(routes)).queue
    case _ => s.queue
  }

  lemma StepNew(s: State, e: Event, compute: Calculation, c: Command)
    requires Enabled(s, e) && !e.Timeout? && c in Step(s, e, compute).waiting + Step(s, e, compute).replied
    ensures c in s.waiting + s.replied || First(QueueAt(s, e), c) ||
            ((e.Ack? || e.FaceNotFound?) && Second(s, e.command, c))
  {
    match e
    case Submit(u) => SendBatchNew(AddUpdateToQueue(s, u), compute, c);
    case FaceRemoved(f, routes) =>
      QueueAllLog(s, FaceUpdates(routes));
      SendBatchNew(AddAllToQueue(s, FaceUpdates(routes)), compute, c);
    case Execute(d) =>
    case Ack(d) => DoneNew(s.(replied := s.replied - multiset{d}), d, compute, c);
    case FaceNotFound(d) => DoneNew(s.(waiting := s.waiting - multiset{d}), d, compute, c);
  }

  /** Batches in the queue were not started yet. */
  lemma QueuedLater(s: State, e: Event, rib0: Table, c: Command)
    requires Quiescent(s, rib0) && First(QueueAt(s, e), c)
    ensures c.batch.id >= StartedCount(s)
  {
    match e
    case Submit(u) => QueueKeeps(s, u, rib0);
    case FaceRemoved(f, routes) => QueueAllKeeps(s, FaceUpdates(routes), rib0);
    case _ =>
  }

  // ----- the running batch -----

  /** A command under way is of the batch that was started last, and of its current phase. */
  lemma RunningCommand(s: State, rib0: Table, c: Command)
    requires Inv(s, rib0) && c in s.waiting + s.replied
    ensures s.inProgress && |s.log| > 0 && c.batch == s.log[|s.log| - 1].batch && c.batch.id + 1 == StartedCount(s)
    ensures c.update in Live(s.work) && (|s.work.batch| > 0 ==> c.update.faceId == s.work.batchFaceId)
    ensures (s.waiting + s.replied)[c] == 1 &&
            forall d :: d in s.waiting + s.replied && d.update == c.update ==> d == c
  {
    var cs := s.waiting + s.replied;
    assert Expected(c, cs, Live(s.work), s.log[|s.log| - 1].batch);
    assert LogEntryOk(s, |s.log| - 1, rib0);
  }

  /** As long as nothing is logged, the lists only lose updates, and the second phase does not go back to the first. */
  lemma SendBatchWork(s: State, compute: Calculation)
    ensures var s' := SendBatchFromQueue(s, compute); s'.log == s.log ==> s'.work == s.work
  {
    if |s.queue| > 0 && !s.inProgress {
      var b := s.queue[0];
      var w := compute(s.rib, b.update);
      var s1 := s.(inProgress := true, queue := s.queue[1..], work := w, log := s.log + [Started(b, s.rib, s.fib, w)]);
      if |w.batch| == 0 {
        SendNonBatchSucceeds(s1, b, compute);
      }
    }
  }

  lemma NonBatchWork(s: State, b: Batch, compute: Calculation)
    ensures var s' := SendUpdatesForNonBatchFaceId(s, b, compute); s'.log == s.log ==> s'.work == s.work
    ensures |OnFibUpdateSuccess(s, b, compute).log| > |s.log|
  {
    var rib := ApplyRecords(TableUpdated(s.rib, b.update), s.work.records);
    var s1 := s.(rib := rib, inProgress := false, log := s.log + [Finished(b, rib, s.fib, true)]);
    SendBatchSucceeds(s1, compute);
  }

  lemma StepWork(s: State, e: Event, compute: Calculation)
    requires Enabled(s, e)
    ensures var s' := Step(s, e, compute);
            s'.log == s.log ==>
              s'.work.batchFaceId == s.work.batchFaceId && |s'.work.batch| <= |s.work.batch|
  {
    match e
    case Submit(u) => SendBatchWork(AddUpdateToQueue(s, u), compute);
    case FaceRemoved(f, routes) =>
      QueueAllLog(s, FaceUpdates(routes));
      SendBatchWork(AddAllToQueue(s, FaceUpdates(routes)), compute);
    case Ack(c) => DoneWork(s.(replied := s.replied - multiset{c}), c, compute);
    case FaceNotFound(c) => DoneWork(s.(waiting := s.waiting - multiset{c}), c, compute);
    case _ =>
  }

  lemma {:induction false} RemoveEqualShrinks(list: seq<FibUpdate>, u: FibUpdate)
    ensures |RemoveEqual(list, u)| <= |list|
  {
    if |list| > 0 {
      RemoveEqualShrinks(list[1..], u);
    }
  }

  lemma DoneWork(s: State, c: Command, compute: Calculation)
    ensures var s' := OnUpdateSuccess(s, c, compute);
            s'.log == s.log ==> s'.work.batchFaceId == s.work.batchFaceId && |s'.work.batch| <= |s.work.batch|
    ensures var s' := OnFaceNotFound(s, c, compute);
            s'.log == s.log ==> s'.work.batchFaceId == s.work.batchFaceId && |s'.work.batch| <= |s.work.batch|
  {
    RemoveEqualShrinks(s.work.batch, c.update);
    NonBatchWork(s.(work := s.work.(batch := RemoveEqual(s.work.batch, c.update))), c.batch, compute);
    NonBatchWork(s.(work := s.work.(nonBatch := RemoveEqual(s.work.nonBatch, c.update))), c.batch, compute);
    SendBatchSucceeds(s.(inProgress := false, log := s.log + [Finished(c.batch, s.rib, s.fib, false)]), compute);
  }

  // ----- runs -----

  lemma StartedGrows(s: State, e: Event, compute: Calculation)
    ensures s.log <= Step(s, e, compute).log && StartedCount(s) <= StartedCount(Step(s, e, compute))
  {
    StepOutcome(s, e, compute);
  }

  /** A run on which no batch-face command is rejected while another one is under way. */
  ghost predicate OrderlyRun(states: seq<State>, events: seq<Event>, compute: Calculation, rib0: Table, fib0: Fib,
                             k: nat) {
    IsRunFrom(states, events, compute, rib0, fib0) && k <= |events| && OrderlyUpTo(states, events, k)
  }

  lemma RunInv(states: seq<State>, events: seq<Event>, compute: Calculation, rib0: Table, fib0: Fib, k: nat)
    requires OrderlyRun(states, events, compute, rib0, fib0, k)
    ensures Inv(states[k], rib0)
  {
    RunKeeps(states, events, compute, rib0, fib0, k);
  }

  /** No command of a batch that was not started has timed out. */
  lemma {:induction false} NotStarted(states: seq<State>, events: seq<Event>, compute: Calculation, rib0: Table,
                                      fib0: Fib, k: nat, b: Batch, u: FibUpdate)
    requires OrderlyRun(states, events, compute, rib0, fib0, k) && b.id >= StartedCount(states[k])
    ensures Timeouts(events, k, b, u) == 0
  {
    if k > 0 {
      var s, e := states[k - 1], events[k - 1];
      StartedGrows(s, e, compute);
      NotStarted(states, events, compute, rib0, fib0, k - 1, b, u);
      if e.Timeout? {
        RunInv(states, events, compute, rib0, fib0, k - 1);
        RunningCommand(s, rib0, e.command);
      }
    }
  }

  /** In the first phase of a batch no command of its second phase has timed out. */
  ghost predicate FirstPhase(s: State, events: seq<Event>, k: nat)
    requires k <= |events|
  {
    s.inProgress && |s.log| > 0 && |s.work.batch| > 0 ==>
      forall u: FibUpdate :: u.faceId != s.work.batchFaceId ==> Timeouts(events, k, s.log[|s.log| - 1].batch, u) == 0
  }

  lemma StartedBatch(s: State, s': State, rib0: Table)
    requires Inv(s, rib0) && Inv(s', rib0) && s.log < s'.log && s'.inProgress
    ensures s'.log[|s'.log| - 1].batch.id >= StartedCount(s)
  {
    assert LogEntryOk(s', |s'.log| - 1, rib0);
  }

  lemma FirstPhaseStep(states: seq<State>, events: seq<Event>, compute: Calculation, rib0: Table, fib0: Fib, k: nat)
    requires 0 < k && OrderlyRun(states, events, compute, rib0, fib0, k)
    requires FirstPhase(states[k - 1], events, k - 1)
    ensures FirstPhase(states[k], events, k)
  {
    var s, e, s' := states[k - 1], events[k - 1], states[k];
    RunInv(states, events, compute, rib0, fib0, k - 1);
    RunInv(states, events, compute, rib0, fib0, k);
    StepOutcome(s, e, compute);
    StepWork(s, e, compute);
    if e.Timeout? {
      RunningCommand(s, rib0, e.command);
    }
    if s'.inProgress && |s'.log| > 0 && |s'.work.batch| > 0 {
      var b := s'.log[|s'.log| - 1].batch;
      forall u: FibUpdate | u.faceId != s'.work.batchFaceId
        ensures Timeouts(events, k, b, u) == 0
      {
        if s'.log != s.log {
          StartedBatch(s, s', rib0);
          NotStarted(states, events, compute, rib0, fib0, k - 1, b, u);
        }
      }
    }
  }

  lemma {:induction false} RunFirstPhase(states: seq<State>, events: seq<Event>, compute: Calculation, rib0: Table,
                                         fib0: Fib, k: nat)
    requires OrderlyRun(states, events, compute, rib0, fib0, k)
    ensures FirstPhase(states[k], events, k)
  {
    if k > 0 {
      RunFirstPhase(states, events, compute, rib0, fib0, k - 1);
      FirstPhaseStep(states, events, compute, rib0, fib0, k);
    }
  }

  /** The attempts that a command carries are the time-outs of its update. */
  ghost predicate Counted(s: State, events: seq<Event>, k: nat, c: Command)
    requires k <= |events|
  {
    c in s.waiting + s.replied ==> c.nTimeouts == Timeouts(events, k, c.batch, c.update)
  }

  lemma TimeoutCounted(states: seq<State>, events: seq<Event>, compute: Calculation, rib0: Table, fib0: Fib, k: nat,
                       c: Command)
    requires 0 < k && OrderlyRun(states, events, compute, rib0, fib0, k) && events[k - 1].Timeout?
    requires Counted(states[k - 1], events, k - 1, c)
    requires Counted(states[k - 1], events, k - 1, events[k - 1].command)
    ensures Counted(states[k], events, k, c)
  {
    var s, d := states[k - 1], events[k - 1].command;
    RunInv(states, events, compute, rib0, fib0, k - 1);
    RunningCommand(s, rib0, d);
    assert states[k] == Step(s, events[k - 1], compute);
    if c in states[k].waiting + states[k].replied && c != Retried(d) {
      assert c in s.waiting + s.replied && c != d;
      RunningCommand(s, rib0, c);
    }
  }

  lemma OtherCounted(states: seq<State>, events: seq<Event>, compute: Calculation, rib0: Table, fib0: Fib, k: nat,
                     c: Command)
    requires 0 < k && OrderlyRun(states, events, compute, rib0, fib0, k) && !events[k - 1].Timeout?
    requires Counted(states[k - 1], events, k - 1, c)
    ensures Counted(states[k], events, k, c)
  {
    var s, e := states[k - 1], events[k - 1];
    assert Enabled(s, e) && states[k] == Step(s, e, compute);
    if c in states[k].waiting + states[k].replied {
      StepNew(s, e, compute, c);
      RunInv(states, events, compute, rib0, fib0, k - 1);
      if First(QueueAt(s, e), c) {
        QueuedLater(s, e, rib0, c);
        NotStarted(states, events, compute, rib0, fib0, k - 1, c.batch, c.update);
      } else if c !in s.waiting + s.replied {
        assert e.command in s.waiting + s.replied;
        RunningCommand(s, rib0, e.command);
        RunFirstPhase(states, events, compute, rib0, fib0, k - 1);
        SecondFace(s, rib0, e.command, c);
      }
    }
  }

  lemma SecondFace(s: State, rib0: Table, d: Command, c: Command)
    requires Inv(s, rib0) && d in s.waiting + s.replied && Second(s, d, c)
    ensures |s.work.batch| > 0 && c.update.faceId != s.work.batchFaceId
  {
    RunningCommand(s, rib0, d);
  }

  lemma {:induction false} RunCounted(states: seq<State>, events: seq<Event>, compute: Calculation, rib0: Table,
                                      fib0: Fib, k: nat, c: Command)
    requires OrderlyRun(states, events, compute, rib0, fib0, k)
    ensures Counted(states[k], events, k, c)
    decreases k
  {
    if k > 0 {
      RunCounted(states, events, compute, rib0, fib0, k - 1, c);
      if events[k - 1].Timeout? {
        RunCounted(states, events, compute, rib0, fib0, k - 1, events[k - 1].command);
        TimeoutCounted(states, events, compute, rib0, fib0, k, c);
      } else {
        OtherCounted(states, events, compute, rib0, fib0, k, c);
      }
    }
  }

  /** On every orderly run each command under way carries the number of time-outs that its update has had. */
  lemma TimeoutsCounted(states: seq<State>, events: seq<Event>, compute: Calculation, rib0: Table, fib0: Fib, k: nat,
                        c: Command)
    requires OrderlyRun(states, events, compute, rib0, fib0, k) && c in states[k].waiting + states[k].replied
    ensures c.nTimeouts == Timeouts(events, k, c.batch, c.update)
  {
    RunCounted(states, events, compute, rib0, fib0, k, c);
  }

  /** No update of a batch times out more than ten times without an error: it is sent eleven times at most. */
  lemma {:induction false} AtMostTen(states: seq<State>, events: seq<Event>, compute: Calculation, rib0: Table,
                                     fib0: Fib, k: nat, b: Batch, u: FibUpdate)
    requires OrderlyRun(states, events, compute, rib0, fib0, k)
    ensures Timeouts(events, k, b, u) <= MAX_NUM_TIMEOUTS == 10
  {
    if k > 0 {
      AtMostTen(states, events, compute, rib0, fib0, k - 1, b, u);
      var e := events[k - 1];
      if e.Timeout? && e.command.batch == b && e.command.update == u {
        assert Enabled(states[k - 1], e);
        TimeoutsCounted(states, events, compute, rib0, fib0, k - 1, e.command);
      }
    }
  }
}
