/** Runs of the update protocol: order of batches, callbacks, and the FIB whenever no batch is under way. */
module ProtocolRuns {
  import opened Wrappers
  import opened Names
  import opened Routes
  import opened RibModel
  import opened FibUpdates
  import opened FibAgreement
  import opened FibRecords
  import opened FibRuns
  import opened UpdateProtocol

  ghost predicate IsRun(states: seq<State>, events: seq<Event>, compute: Calculation) {
    |states| == |events| + 1 &&
    forall i :: 0 <= i < |events| ==>
      Enabled(states[i], events[i]) && states[i + 1] == Step(states[i], events[i], compute)
  }

  ghost predicate IsRunFrom(states: seq<State>, events: seq<Event>, compute: Calculation, rib0: Table, fib0: Fib) {
    IsRun(states, events, compute) && states[0] == Initial(rib0, fib0) && CalculationOk(compute)
  }

  /** In the first k steps no batch-face command is rejected while another command is under way. */
  predicate OrderlyUpTo(states: seq<State>, events: seq<Event>, k: nat)
    requires k <= |events| <= |states|
  {
    forall i :: 0 <= i < k ==> Orderly(states[i], events[i])
  }

  /** The invariant holds along a run if and only if the run is orderly. */
  lemma {:induction false} RunKeeps(states: seq<State>, events: seq<Event>, compute: Calculation, rib0: Table,
                                    fib0: Fib, k: nat)
    requires IsRunFrom(states, events, compute, rib0, fib0) && k <= |events|
    ensures (forall i :: 0 <= i <= k ==> Inv(states[i], rib0)) <==> OrderlyUpTo(states, events, k)
  {
    if k > 0 {
      RunKeeps(states, events, compute, rib0, fib0, k - 1);
      assert Inv(states[k - 1], rib0) ==> (Inv(states[k], rib0) <==> Orderly(states[k - 1], events[k - 1])) by {
        if Inv(states[k - 1], rib0) {
          StepKeeps(states[k - 1], events[k - 1], compute, rib0);
        }
      }
    }
  }

  /** One batch at a time, in the order of submission, each with exactly one callback; at rest all are served. */
  predicate InOrder(s: State) {
    (forall i :: 0 <= i < |s.log| ==>
       i / 2 < |s.submitted| && s.log[i].batch == Batch(i / 2, s.submitted[i / 2]) &&
         (s.log[i].Started? <==> i % 2 == 0)) &&
    (s.inProgress <==> |s.log| % 2 == 1) &&
    (!s.inProgress ==> |s.log| == 2 * |s.submitted| && s.queue == [])
  }

  /**
   * Batches run one at a time in the order of submission, each ends in exactly one callback before the next one starts,
   * and at rest every submitted update has been served.
   */
  lemma BatchesInOrder(states: seq<State>, events: seq<Event>, compute: Calculation, rib0: Table, fib0: Fib, k: nat)
    requires IsRunFrom(states, events, compute, rib0, fib0) && k <= |events| && OrderlyUpTo(states, events, k)
    ensures InOrder(states[k])
  {
    RunKeeps(states, events, compute, rib0, fib0, k);
    var s := states[k];
    assert Inv(s, rib0);
    forall i | 0 <= i < |s.log|
      ensures i / 2 < |s.submitted| && s.log[i].batch == Batch(i / 2, s.submitted[i / 2]) &&
              (s.log[i].Started? <==> i % 2 == 0)
    {
      assert LogEntryOk(s, i, rib0);
    }
  }

  lemma {:induction false} NoFailure(states: seq<State>, events: seq<Event>, compute: Calculation, rib0: Table,
                                     fib0: Fib, k: nat)
    requires IsRunFrom(states, events, compute, rib0, fib0) && k <= |events|
    requires forall i :: 0 <= i < k ==> !Rejection(states[i], events[i])
    ensures forall i :: 0 <= i < |states[k].log| && states[k].log[i].Finished? ==> states[k].log[i].success
  {
    if k > 0 {
      NoFailure(states, events, compute, rib0, fib0, k - 1);
      StepOutcome(states[k - 1], events[k - 1], compute);
    }
  }

  /**
   * In every interleaving without a rejected batch-face command, whatever times out or is rejected otherwise, the
   * callback of every batch is the success callback, exactly once and in order.
   */
  lemma BatchesSucceed(states: seq<State>, events: seq<Event>, compute: Calculation, rib0: Table, fib0: Fib, k: nat)
    requires IsRunFrom(states, events, compute, rib0, fib0) && k <= |events|
    requires forall i :: 0 <= i < k ==> !Rejection(states[i], events[i])
    ensures InOrder(states[k])
    ensures forall i :: 0 <= i < |states[k].log| && states[k].log[i].Finished? ==> states[k].log[i].success
  {
    BatchesInOrder(states, events, compute, rib0, fib0, k);
    NoFailure(states, events, compute, rib0, fib0, k);
  }

  /**
   * All commands under way belong to the batch that is running; as long as the batch face has unacknowledged updates
   * no command for another face is out, and a running batch always awaits a response.
   */
  lemma TwoPhases(states: seq<State>, events: seq<Event>, compute: Calculation, rib0: Table, fib0: Fib, k: nat)
    requires IsRunFrom(states, events, compute, rib0, fib0) && k <= |events| && OrderlyUpTo(states, events, k)
    ensures var s := states[k];
            var cs := s.waiting + s.replied;
            (s.inProgress <==> cs != multiset{}) &&
            forall c :: c in cs ==>
              |s.log| > 0 && c.batch == s.log[|s.log| - 1].batch &&
              if c.update.faceId == s.work.batchFaceId then c.update in s.work.batch
              else s.work.batch == [] && c.update in s.work.nonBatch
  {
    RunKeeps(states, events, compute, rib0, fib0, k);
    var s := states[k];
    assert Inv(s, rib0);
    var cs := s.waiting + s.replied;
    if s.inProgress {
      var b := s.log[|s.log| - 1].batch;
      forall c | c in cs
        ensures c.batch == b && c.update in Live(s.work)
      {
        assert Expected(c, cs, Live(s.work), b);
      }
      assert Awaited(Live(s.work)[0], cs);
    }
  }

  /** The entries from position i on, none of them a success, leave the RIB as it was. */
  lemma {:induction false} NoSuccessNoChange(s: State, rib0: Table, i: nat, j: nat)
    requires LogOk(s, rib0) && i <= j < |s.log| && forall l :: i < l <= j ==> !(s.log[l].Finished? && s.log[l].success)
    ensures s.log[j].rib == s.log[i].rib
    decreases j
  {
    if i < j {
      assert LogEntryOk(s, j, rib0);
      NoSuccessNoChange(s, rib0, i, j - 1);
    }
  }

  /** A step changes the RIB only by calling a success callback. */
  lemma RibChangesInCallback(s: State, e: Event, compute: Calculation, rib0: Table)
    requires Inv(s, rib0) && CalculationOk(compute) && Enabled(s, e) && Orderly(s, e)
    ensures var s' := Step(s, e, compute);
            s'.rib != s.rib ==> exists i :: |s.log| <= i < |s'.log| && s'.log[i].Finished? && s'.log[i].success
  {
    var s' := Step(s, e, compute);
    StepKeeps(s, e, compute, rib0);
    StepOutcome(s, e, compute);
    if forall i :: |s.log| <= i < |s'.log| ==> !(s'.log[i].Finished? && s'.log[i].success) {
      if |s.log| > 0 {
        NoSuccessNoChange(s', rib0, |s.log| - 1, |s'.log| - 1);
        assert s'.log[|s.log| - 1] == s.log[|s.log| - 1];
      } else if |s'.log| > 0 {
        assert LogEntryOk(s', 0, rib0);
        NoSuccessNoChange(s', rib0, 0, |s'.log| - 1);
      }
    }
  }

  // ----- the FIB -----

  /** The batch is one of the changes that keep FIB and RIB settled, and its lists are what the updater computes. */
  ghost predicate QuietStart(e: LogEntry) {
    e.Started? ==>
      exists ch ::
        Fits(ch, e.rib) && Quiet(ch, e.rib) && AsUpdate(ch, e.rib) == e.batch.update && Computed(ch, e.rib, e.lists)
  }

  ghost predicate QuietLog(log: seq<LogEntry>) {
    forall i :: 0 <= i < |log| ==> QuietStart(log[i])
  }

  /** No command is rejected, and only additions are retried. */
  predicate Reliable(e: Event) {
    !e.FaceNotFound? && (e.Timeout? ==> e.command.update.action == AddNextHop)
  }

  ghost predicate RepliedTo(u: FibUpdate, replied: multiset<Command>) {
    exists c :: c in replied && c.update == u
  }

  /** The update has certainly been carried out: it is acknowledged, or its response is under way. */
  ghost predicate Known(u: FibUpdate, w: Lists, replied: multiset<Command>) {
    (u !in w.batch && u !in w.nonBatch) || RepliedTo(u, replied)
  }

  /** The FIB holds the updates that were carried out, on top of what it held when the batch started. */
  ghost predicate FibAt(s: State, base: Fib, w0: Lists, n: Name, f: nat) {
    match Pending(w0, n, f)
    case None => At(s.fib, n, f) == At(base, n, f)
    case Some(u) => Known(u, s.work, s.replied) ==> At(s.fib, n, f) == Outcome(Some(u), None)
  }

  ghost predicate ListsWithin(w: Lists, w0: Lists) {
    (forall u :: u in w.batch ==> u in w0.batch) && (forall u :: u in w.nonBatch ==> u in w0.nonBatch)
  }

  ghost predicate FibFollows(s: State, base: Fib, w0: Lists) {
    forall n: Name, f: nat {:trigger FibAt(s, base, w0, n, f)} :: FibAt(s, base, w0, n, f)
  }

  /** Every command carries out its own update. */
  ghost predicate VerbsOk(cs: multiset<Command>) {
    forall c :: c in cs ==> c.verb == c.update.action
  }

  /** After every batch so far, FIB and records matched the RIB. */
  ghost predicate LogSettled(log: seq<LogEntry>) {
    forall i :: 0 <= i < |log| && log[i].Finished? ==> Settled(log[i].rib, log[i].fib)
  }

  ghost predicate Progress(s: State) {
    |s.log| > 0 && LogSettled(s.log) &&
    var last := s.log[|s.log| - 1];
    last.Started? && ListsOk(last.lists) && Settled(last.rib, last.fib) && s.rib == last.rib &&
      s.work.records == last.lists.records &&
    ListsWithin(s.work, last.lists) && VerbsOk(s.waiting) && VerbsOk(s.replied) && FibFollows(s, last.fib, last.lists)
  }

  ghost predicate Good(s: State) {
    if s.inProgress then Progress(s) else LogSettled(s.log) && Settled(s.rib, s.fib)
  }

  /** Once both lists are empty the change is complete, and the RIB catches up with the FIB. */
  lemma CompletedSettles(s: State)
    requires Progress(s) && s.work.batch == [] && s.work.nonBatch == [] && QuietLog(s.log)
    ensures Settled(ApplyRecords(TableUpdated(s.rib, s.log[|s.log| - 1].batch.update), s.work.records), s.fib)
  {
    var last := s.log[|s.log| - 1];
    assert QuietStart(last);
    var ch :| Fits(ch, last.rib) && Quiet(ch, last.rib) && AsUpdate(ch, last.rib) == last.batch.update &&
              Computed(ch, last.rib, last.lists);
    var sent := last.lists.batch + last.lists.nonBatch;
    AllCarriedOut(s, last.fib, last.lists, sent);
    ChangeIsUpdate(ch, last.rib, [], 0);
    QuietChangeSettles(ch, last.rib, last.fib, last.lists, sent);
  }

  lemma AllCarriedOut(s: State, base: Fib, w: Lists, sent: seq<FibUpdate>)
    requires ListsOk(w) && FibFollows(s, base, w) && s.work.batch == [] && s.work.nonBatch == [] &&
             sent == w.batch + w.nonBatch
    ensures s.fib == ApplyAll(base, sent)
  {
    forall n: Name, f: nat
      ensures At(s.fib, n, f) == At(ApplyAll(base, sent), n, f)
    {
      AnyOrderAt(w, sent, base, n, f);
      assert FibAt(s, base, w, n, f);
    }
    SameFib(s.fib, ApplyAll(base, sent));
  }

  lemma QuietPrefix(a: seq<LogEntry>, b: seq<LogEntry>)
    requires a <= b && QuietLog(b)
    ensures QuietLog(a)
  {
  }

  lemma CommandsVerb(list: seq<FibUpdate>, b: Batch)
    requires UniqueKeys(list)
    ensures VerbsOk(Commands(list, b))
  {
  }

  lemma SendBatchSettles(s: State, compute: Calculation, rib0: Table)
    requires Quiescent(s, rib0) && CalculationOk(compute) && Good(s) && QuietLog(SendBatchFromQueue(s, compute).log)
    ensures Good(SendBatchFromQueue(s, compute))
    decreases |s.queue|, 0
  {
    if |s.queue| > 0 && !s.inProgress {
      var b := s.queue[0];
      var w := compute(s.rib, b.update);
      var e := Started(b, s.rib, s.fib, w);
      var s1 := s.(inProgress := true, queue := s.queue[1..], work := w, log := s.log + [e]);
      assert ListsOk(w) && w.batchFaceId == b.update.route.faceId;
      assert b == Batch(|s.log| / 2, s.submitted[|s.log| / 2]);
      LogGrows(s, s1, e, rib0);
      assert SendBatchFromQueue(s, compute) == SendUpdatesForBatchFaceId(s1, b, compute);
      StartProgress(s1, s.rib, s.fib, w);
      if |w.batch| > 0 {
        SentProgress(s1, w.batch, b);
      } else {
        SendNonBatchSettles(s1, b, compute, rib0);
      }
    }
  }

  lemma StartProgress(s: State, rib: Table, fib: Fib, w: Lists)
    requires |s.log| > 0 && s.log[|s.log| - 1].Started? && s.log[|s.log| - 1].rib == rib == s.rib
    requires s.log[|s.log| - 1].fib == fib == s.fib && s.log[|s.log| - 1].lists == w == s.work
    requires ListsOk(w) && Settled(rib, fib) && s.waiting + s.replied == multiset{}
    requires LogSettled(s.log)
    ensures Progress(s)
  {
    forall c
      ensures c !in s.waiting && c !in s.replied
    {
      assert c !in s.waiting + s.replied;
    }
    forall n: Name, f: nat
      ensures FibAt(s, fib, w, n, f)
    {
      if Pending(w, n, f).Some? {
        PendingMember(w, Pending(w, n, f).value);
      }
    }
  }

  lemma SentProgress(s: State, live: seq<FibUpdate>, b: Batch)
    requires Progress(s) && UniqueKeys(live)
    ensures Progress(s.(waiting := s.waiting + Commands(live, b)))
  {
    var s' := s.(waiting := s.waiting + Commands(live, b));
    CommandsVerb(live, b);
    var last := s.log[|s.log| - 1];
    forall n: Name, f: nat
      ensures FibAt(s', last.fib, last.lists, n, f)
    {
      assert FibAt(s, last.fib, last.lists, n, f);
    }
  }

  lemma SendNonBatchSettles(s: State, b: Batch, compute: Calculation, rib0: Table)
    requires Between(s, b, rib0) && CalculationOk(compute) && Progress(s)
    requires QuietLog(SendUpdatesForNonBatchFaceId(s, b, compute).log)
    ensures Good(SendUpdatesForNonBatchFaceId(s, b, compute))
    decreases |s.queue|, 2
  {
    if |s.work.nonBatch| > 0 {
      SentProgress(s, s.work.nonBatch, b);
    } else {
      SuccessSettles(s, b, compute, rib0);
    }
  }

  lemma SuccessSettles(s: State, b: Batch, compute: Calculation, rib0: Table)
    requires Between(s, b, rib0) && CalculationOk(compute) && Progress(s) && s.work.nonBatch == []
    requires QuietLog(OnFibUpdateSuccess(s, b, compute).log)
    ensures Good(OnFibUpdateSuccess(s, b, compute))
    decreases |s.queue|, 1
  {
    SuccessKeeps(s, b, compute, rib0);
    SuccessSucceeds(s, b, compute);
    QuietPrefix(s.log, OnFibUpdateSuccess(s, b, compute).log);
    CompletedSettles(s);
    var rib := ApplyRecords(TableUpdated(s.rib, b.update), s.work.records);
    var e := Finished(b, rib, s.fib, true);
    var s1 := s.(rib := rib, inProgress := false, log := s.log + [e]);
    assert LogEntryOk(s, |s.log| - 1, rib0);
    LogGrows(s, s1, e, rib0);
    SendBatchSettles(s1, compute, rib0);
  }

  // ----- every reliable step keeps the FIB -----

  /** The state after command c, which carries out its own update, was carried out. */
  function Executed(s: State, c: Command): State {
    s.(fib := Apply(s.fib, c.update), waiting := s.waiting - multiset{c}, replied := s.replied + multiset{c})
  }

  lemma ExecutedAt(s: State, c: Command, base: Fib, w: Lists, n: Name, f: nat)
    requires Pending(w, c.update.name, c.update.faceId) == Some(c.update) && FibAt(s, base, w, n, f)
    ensures FibAt(Executed(s, c), base, w, n, f)
  {
  }

  lemma ExecutedFollows(s: State, c: Command, base: Fib, w: Lists)
    requires Pending(w, c.update.name, c.update.faceId) == Some(c.update) && FibFollows(s, base, w)
    ensures FibFollows(Executed(s, c), base, w)
  {
    forall n: Name, f: nat
      ensures FibAt(Executed(s, c), base, w, n, f)
    {
      assert FibAt(s, base, w, n, f);
      ExecutedAt(s, c, base, w, n, f);
    }
  }

  lemma MovedVerbs(a: multiset<Command>, b: multiset<Command>, c: Command)
    requires VerbsOk(a) && VerbsOk(b) && c in a
    ensures VerbsOk(a - multiset{c}) && VerbsOk(b + multiset{c})
  {
  }

  lemma ExecutedProgress(s: State, c: Command)
    requires Progress(s) && c in s.waiting
    requires Pending(s.log[|s.log| - 1].lists, c.update.name, c.update.faceId) == Some(c.update)
    ensures Progress(Executed(s, c))
  {
    var last := s.log[|s.log| - 1];
    ExecutedFollows(s, c, last.fib, last.lists);
    MovedVerbs(s.waiting, s.replied, c);
  }

  lemma ExecuteSettles(s: State, c: Command, compute: Calculation, rib0: Table)
    requires Inv(s, rib0) && s.inProgress && Progress(s) && c in s.waiting
    ensures Progress(Step(s, Execute(c), compute))
  {
    LiveUpdate(s, c, rib0);
    PendingMember(s.log[|s.log| - 1].lists, c.update);
    assert c.update.(action := c.verb) == c.update;
    assert Step(s, Execute(c), compute) == Executed(s, c);
    ExecutedProgress(s, c);
  }

  lemma LiveUpdate(s: State, c: Command, rib0: Table)
    requires Inv(s, rib0) && s.inProgress && c in s.waiting + s.replied
    ensures c.update in s.work.batch || c.update in s.work.nonBatch
  {
    assert Expected(c, s.waiting + s.replied, Live(s.work), s.log[|s.log| - 1].batch);
  }

  /** Progress with a command taken out and its update struck from a list: the update was carried out. */
  lemma StruckProgress(s: State, c: Command, work: Lists)
    requires Progress(s) && c in s.replied
    requires work == s.work.(batch := RemoveEqual(s.work.batch, c.update)) ||
             work == s.work.(nonBatch := RemoveEqual(s.work.nonBatch, c.update))
    ensures Progress(s.(replied := s.replied - multiset{c}, work := work))
  {
    var s', last := s.(replied := s.replied - multiset{c}, work := work), s.log[|s.log| - 1];
    forall u
      ensures u in work.batch ==> u in s.work.batch
      ensures u in work.nonBatch ==> u in s.work.nonBatch
      ensures Known(u, work, s'.replied) ==> Known(u, s.work, s.replied)
    {
      RemoveEqualMembers(s.work.batch, c.update, u);
      RemoveEqualMembers(s.work.nonBatch, c.update, u);
      if RepliedTo(u, s'.replied) {
        var d :| d in s'.replied && d.update == u;
        assert d in s.replied;
      }
      assert RepliedTo(c.update, s.replied);
    }
    forall n: Name, f: nat
      ensures FibAt(s', last.fib, last.lists, n, f)
    {
      assert FibAt(s, last.fib, last.lists, n, f);
    }
  }

  lemma BatchAckSettles(s: State, s0: State, c: Command, compute: Calculation, cs: multiset<Command>, rib0: Table)
    requires Progress(s) && c in s.replied && s0 == s.(replied := s.replied - multiset{c})
    requires Landing(s0, c, cs, rib0) && |s.work.batch| > 0 && CalculationOk(compute)
    requires QuietLog(OnUpdateSuccess(s0, c, compute).log)
    ensures Good(OnUpdateSuccess(s0, c, compute))
  {
    StruckState(s0, c, cs, rib0);
    var s1 := Struck(s0, c.update);
    StruckProgress(s, c, s1.work);
    if |s1.work.batch| == 0 {
      SendNonBatchSettles(s1, c.batch, compute, rib0);
    }
  }

  lemma NonBatchAckSettles(s: State, s0: State, c: Command, compute: Calculation, cs: multiset<Command>, rib0: Table)
    requires Progress(s) && c in s.replied && s0 == s.(replied := s.replied - multiset{c})
    requires Landing(s0, c, cs, rib0) && |s.work.batch| == 0 && CalculationOk(compute)
    requires QuietLog(OnUpdateSuccess(s0, c, compute).log)
    ensures Good(OnUpdateSuccess(s0, c, compute))
  {
    StruckState(s0, c, cs, rib0);
    var s1 := Struck(s0, c.update);
    StruckProgress(s, c, s1.work);
    if |s1.work.nonBatch| == 0 {
      SuccessSettles(s1, c.batch, compute, rib0);
    }
  }

  lemma AckSettles(s: State, c: Command, compute: Calculation, rib0: Table)
    requires Inv(s, rib0) && s.inProgress && CalculationOk(compute) && Progress(s) && c in s.replied
    requires QuietLog(Step(s, Ack(c), compute).log)
    ensures Good(Step(s, Ack(c), compute))
  {
    var s0, cs := s.(replied := s.replied - multiset{c}), s.waiting + s.replied;
    assert c in cs && s0.waiting + s0.replied == cs - multiset{c};
    SameLog(s, s0, rib0);
    if |s.work.batch| > 0 {
      BatchAckSettles(s, s0, c, compute, cs, rib0);
    } else {
      NonBatchAckSettles(s, s0, c, compute, cs, rib0);
    }
  }

  /** With fewer responses under way, less is known. */
  lemma FewerReplies(s: State, waiting: multiset<Command>, replied: multiset<Command>, base: Fib, w: Lists)
    requires FibFollows(s, base, w) && replied <= s.replied
    ensures FibFollows(s.(waiting := waiting, replied := replied), base, w)
  {
    var s' := s.(waiting := waiting, replied := replied);
    forall n: Name, f: nat
      ensures FibAt(s', base, w, n, f)
    {
      assert FibAt(s, base, w, n, f);
      var pending := Pending(w, n, f);
      if pending.Some? && RepliedTo(pending.value, replied) {
        var d :| d in replied && d.update == pending.value;
        assert d in s.replied;
      }
    }
  }

  /** Progress does not depend on which commands wait, as long as they carry out their own updates. */
  lemma ProgressWith(s: State, waiting: multiset<Command>, replied: multiset<Command>)
    requires Progress(s) && replied <= s.replied && VerbsOk(waiting) && VerbsOk(replied)
    ensures Progress(s.(waiting := waiting, replied := replied))
  {
    var last := s.log[|s.log| - 1];
    FewerReplies(s, waiting, replied, last.fib, last.lists);
  }

  lemma TimeoutState(s: State, c: Command, compute: Calculation)
    requires Enabled(s, Timeout(c))
    ensures Step(s, Timeout(c), compute) ==
            if c in s.waiting then s.(waiting := s.waiting - multiset{c} + multiset{Retried(c)}, replied := s.replied)
            else s.(waiting := s.waiting + multiset{Retried(c)}, replied := s.replied - multiset{c})
  {
  }

  lemma TimeoutSettles(s: State, c: Command, compute: Calculation)
    requires Progress(s) && Enabled(s, Timeout(c)) && c.update.action == AddNextHop
    ensures Progress(Step(s, Timeout(c), compute))
  {
    TimeoutState(s, c, compute);
    RetriedVerbs(s.waiting, c, Retried(c));
    RetriedVerbs(s.replied, c, Retried(c));
    if c in s.waiting {
      ProgressWith(s, s.waiting - multiset{c} + multiset{Retried(c)}, s.replied);
    } else {
      ProgressWith(s, s.waiting + multiset{Retried(c)}, s.replied - multiset{c});
    }
  }

  lemma RetriedVerbs(cs: multiset<Command>, c: Command, d: Command)
    requires VerbsOk(cs) && d.verb == d.update.action
    ensures VerbsOk(cs - multiset{c}) && VerbsOk(cs + multiset{d}) && VerbsOk(cs - multiset{c} + multiset{d})
  {
  }

  lemma QueuedGood(s: State, s': State)
    requires Good(s) && s' == s.(submitted := s'.submitted, queue := s'.queue)
    ensures Good(s')
  {
    if s.inProgress {
      var last := s.log[|s.log| - 1];
      forall n: Name, f: nat
        ensures FibAt(s', last.fib, last.lists, n, f)
      {
        assert FibAt(s, last.fib, last.lists, n, f);
      }
    }
  }

  lemma StepSettles(s: State, e: Event, compute: Calculation, rib0: Table)
    requires Inv(s, rib0) && CalculationOk(compute) && Enabled(s, e) && Reliable(e) && Good(s)
    requires QuietLog(Step(s, e, compute).log)
    ensures Good(Step(s, e, compute))
  {
    match e
    case Submit(u) =>
      QueueKeeps(s, u, rib0);
      QueuedGood(s, AddUpdateToQueue(s, u));
      SendBatchSettles(AddUpdateToQueue(s, u), compute, rib0);
    case FaceRemoved(f, routes) =>
      QueueAllKeeps(s, FaceUpdates(routes), rib0);
      QueueAllLog(s, FaceUpdates(routes));
      QueuedGood(s, AddAllToQueue(s, FaceUpdates(routes)));
      SendBatchSettles(AddAllToQueue(s, FaceUpdates(routes)), compute, rib0);
    case Execute(c) =>
      assert c in s.waiting + s.replied;
      ExecuteSettles(s, c, compute, rib0);
    case Ack(c) =>
      assert c in s.waiting + s.replied;
      AckSettles(s, c, compute, rib0);
    case Timeout(c) =>
      assert c in s.waiting + s.replied;
      TimeoutSettles(s, c, compute);
  }

  lemma {:induction false} RunSettles(states: seq<State>, events: seq<Event>, compute: Calculation, rib0: Table,
                                      fib0: Fib, k: nat)
    requires IsRunFrom(states, events, compute, rib0, fib0) && k <= |events|
    requires (forall i :: 0 <= i < k ==> Reliable(events[i])) && Settled(rib0, fib0) && QuietLog(states[k].log)
    ensures Good(states[k])
  {
    if k > 0 {
      RunKeeps(states, events, compute, rib0, fib0, k - 1);
      assert Inv(states[k - 1], rib0);
      StepOutcome(states[k - 1], events[k - 1], compute);
      QuietPrefix(states[k - 1].log, states[k].log);
      RunSettles(states, events, compute, rib0, fib0, k - 1);
      StepSettles(states[k - 1], events[k - 1], compute, rib0);
    }
  }

  /**
   * Every interleaving of submissions, executions, responses and retried additions: after every batch, and whenever no
   * batch is under way, the FIB holds exactly own routes plus the nearest unblocked ancestor route per face, for the
   * RIB of that moment.
   */
  lemma AgreementAtRest(states: seq<State>, events: seq<Event>, compute: Calculation, rib0: Table, fib0: Fib, k: nat)
    requires IsRunFrom(states, events, compute, rib0, fib0) && k <= |events|
    requires (forall i :: 0 <= i < k ==> Reliable(events[i])) && Settled(rib0, fib0) && QuietLog(states[k].log)
    ensures !states[k].inProgress ==> Agrees(states[k].fib, states[k].rib)
    ensures forall i :: 0 <= i < |states[k].log| && states[k].log[i].Finished? ==>
                          Agrees(states[k].log[i].fib, states[k].log[i].rib)
  {
    RunSettles(states, events, compute, rib0, fib0, k);
  }
}
