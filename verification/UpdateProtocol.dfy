/** The queue of RIB updates and the two-phase acknowledgement of their FIB updates (rib.cpp, fib-updater.cpp). */
module UpdateProtocol {
  import opened Wrappers
  import opened Names
  import opened Routes
  import opened RibModel
  import opened FibUpdates

  const MAX_NUM_TIMEOUTS := 10

  /** A batch holds one update; id is its place in the order of submission. */
  datatype Batch = Batch(id: nat, update: RibUpdate)

  /** A command under way: the update and batch its callbacks are bound to, and the verb that was sent. */
  datatype Command = Command(update: FibUpdate, batch: Batch, verb: FibAction, nTimeouts: nat)

  /** History: a batch was taken from the queue, or a callback of it was called. RIB and FIB are those just after. */
  datatype LogEntry =
    | Started(batch: Batch, rib: Table, fib: Fib, lists: Lists)
    | Finished(batch: Batch, rib: Table, fib: Fib, success: bool)

  /** waiting commands were sent; replied ones were carried out and their response is under way. */
  datatype State = State(rib: Table, submitted: seq<RibUpdate>, queue: seq<Batch>, inProgress: bool, work: Lists,
                         waiting: multiset<Command>, replied: multiset<Command>, fib: Fib, log: seq<LogEntry>)

  function Initial(rib: Table, fib: Fib): State {
    State(rib, [], [], false, Lists(0, [], [], []), multiset{}, multiset{}, fib, [])
  }

  /** The lists that the updater computes for an update of a table. */
  type Calculation = (Table, RibUpdate) -> Lists

  ghost predicate CalculationOk(compute: Calculation) {
    forall t, u :: ListsOk(compute(t, u)) && compute(t, u).batchFaceId == u.route.faceId
  }

  // ----- the code -----

  function Commands(list: seq<FibUpdate>, b: Batch): multiset<Command> {
    if |list| == 0 then multiset{} else multiset{Command(list[0], b, list[0].action, 0)} + Commands(list[1..], b)
  }

  /** std::list::remove. */
  function RemoveEqual(list: seq<FibUpdate>, u: FibUpdate): seq<FibUpdate> {
    if |list| == 0 then [] else (if list[0] == u then [] else [list[0]]) + RemoveEqual(list[1..], u)
  }

  function AddUpdateToQueue(s: State, u: RibUpdate): State {
    s.(submitted := s.submitted + [u], queue := s.queue + [Batch(|s.submitted|, u)])
  }

  function AddAllToQueue(s: State, us: seq<RibUpdate>): State
    decreases |us|
  {
    if |us| == 0 then s else AddAllToQueue(AddUpdateToQueue(s, us[0]), us[1..])
  }

  function SendBatchFromQueue(s: State, compute: Calculation): State
    decreases |s.queue|, 0
  {
    if |s.queue| == 0 || s.inProgress then s
    else
      var b := s.queue[0];
      var w := compute(s.rib, b.update);
      var s1 := s.(inProgress := true, queue := s.queue[1..], work := w, log := s.log + [Started(b, s.rib, s.fib, w)]);
      SendUpdatesForBatchFaceId(s1, b, compute)
  }

  function SendUpdatesForBatchFaceId(s: State, b: Batch, compute: Calculation): State
    decreases |s.queue|, 3
  {
    if |s.work.batch| > 0 then s.(waiting := s.waiting + Commands(s.work.batch, b))
    else SendUpdatesForNonBatchFaceId(s, b, compute)
  }

  function SendUpdatesForNonBatchFaceId(s: State, b: Batch, compute: Calculation): State
    decreases |s.queue|, 2
  {
    if |s.work.nonBatch| > 0 then s.(waiting := s.waiting + Commands(s.work.nonBatch, b))
    else OnFibUpdateSuccess(s, b, compute)
  }

  function OnFibUpdateSuccess(s: State, b: Batch, compute: Calculation): State
    decreases |s.queue|, 1
  {
    var rib := ApplyRecords(TableUpdated(s.rib, b.update), s.work.records);
    SendBatchFromQueue(s.(rib := rib, inProgress := false, log := s.log + [Finished(b, rib, s.fib, true)]), compute)
  }

  function OnFibUpdateFailure(s: State, b: Batch, compute: Calculation): State {
    SendBatchFromQueue(s.(inProgress := false, log := s.log + [Finished(b, s.rib, s.fib, false)]), compute)
  }

  function OnUpdateSuccess(s: State, c: Command, compute: Calculation): State {
    if c.update.faceId == s.work.batchFaceId then
      var s1 := s.(work := s.work.(batch := RemoveEqual(s.work.batch, c.update)));
      if |s1.work.batch| == 0 then SendUpdatesForNonBatchFaceId(s1, c.batch, compute) else s1
    else NonBatchUpdateDone(s, c, compute)
  }

  function NonBatchUpdateDone(s: State, c: Command, compute: Calculation): State {
    var s1 := s.(work := s.work.(nonBatch := RemoveEqual(s.work.nonBatch, c.update)));
    if |s1.work.nonBatch| == 0 then OnFibUpdateSuccess(s1, c.batch, compute) else s1
  }

  /** onUpdateError with ERROR_FACE_NOT_FOUND. */
  function OnFaceNotFound(s: State, c: Command, compute: Calculation): State {
    if c.update.faceId == s.work.batchFaceId then OnFibUpdateFailure(s, c.batch, compute)
    else NonBatchUpdateDone(s, c, compute)
  }

  // ----- steps -----

  datatype Event =
    | Submit(update: RibUpdate)                             // beginApplyUpdate
    | FaceRemoved(faceId: nat, routes: seq<(Name, Route)>)  // beginRemoveFace, with what findRoutesWithFaceId yields
    | Execute(command: Command)                             // NFD carries a command out
    | Ack(command: Command)                                 // the success response arrives
    | FaceNotFound(command: Command)                        // the command is rejected with code 410
    | Timeout(command: Command)                             // no response in time, and attempts are left

  function FaceUpdates(routes: seq<(Name, Route)>): seq<RibUpdate> {
    seq(|routes|, i requires 0 <= i < |routes| => RibUpdate(RemoveFace, routes[i].0, routes[i].1))
  }

  ghost predicate Enabled(s: State, e: Event) {
    match e
    case Submit(u) => true
    case FaceRemoved(f, routes) =>
      forall n, r :: (n, r) in routes <==> n in s.rib && r in s.rib[n].routes && r.faceId == f
    case Execute(c) => c in s.waiting
    case Ack(c) => c in s.replied
    case FaceNotFound(c) => c in s.waiting
    case Timeout(c) => (c in s.waiting || c in s.replied) && c.nTimeouts < MAX_NUM_TIMEOUTS
  }

  /** A command that got no response is sent as an addition, whatever it was. */
  function Retried(c: Command): Command {
    Command(c.update, c.batch, AddNextHop, c.nTimeouts + 1)
  }

  function Step(s: State, e: Event, compute: Calculation): State {
    match e
    case Submit(u) => SendBatchFromQueue(AddUpdateToQueue(s, u), compute)
    case FaceRemoved(f, routes) => SendBatchFromQueue(AddAllToQueue(s, FaceUpdates(routes)), compute)
    case Execute(c) =>
      s.(fib := Apply(s.fib, c.update.(action := c.verb)), waiting := s.waiting - multiset{c},
         replied := s.replied + multiset{c})
    case Ack(c) => OnUpdateSuccess(s.(replied := s.replied - multiset{c}), c, compute)
    case FaceNotFound(c) => OnFaceNotFound(s.(waiting := s.waiting - multiset{c}), c, compute)
    case Timeout(c) =>
      var s1 := if c in s.waiting then s.(waiting := s.waiting - multiset{c})
                else s.(replied := s.replied - multiset{c});
      s1.(waiting := s1.waiting + multiset{Retried(c)})
  }

  /** A command of the batch face is rejected: the batch fails. */
  predicate Rejection(s: State, e: Event) {
    e.FaceNotFound? && e.command.update.faceId == s.work.batchFaceId
  }

  /** No batch-face command is rejected while another command is under way. */
  predicate Orderly(s: State, e: Event) {
    Rejection(s, e) ==> s.waiting + s.replied == multiset{e.command}
  }

  // ----- what every orderly run keeps -----

  /** The phase that is under way: the updates whose commands are out. */
  function Live(w: Lists): seq<FibUpdate> {
    if |w.batch| > 0 then w.batch else w.nonBatch
  }

  /** A command under way belongs to the batch and is the only one for its live update. */
  ghost predicate Expected(c: Command, cs: multiset<Command>, live: seq<FibUpdate>, b: Batch) {
    c.batch == b && c.update in live && cs[c] == 1 && forall d :: d in cs && d.update == c.update ==> d == c
  }

  ghost predicate Awaited(u: FibUpdate, cs: multiset<Command>) {
    exists c :: c in cs && c.update == u
  }

  /** The commands of batch b that are under way are, one for one, those of the live updates. */
  ghost predicate Outstanding(cs: multiset<Command>, live: seq<FibUpdate>, b: Batch) {
    (forall c {:trigger Expected(c, cs, live, b)} :: c in cs ==> Expected(c, cs, live, b)) &&
    forall u {:trigger Awaited(u, cs)} :: u in live ==> Awaited(u, cs)
  }

  /** A batch is running and cs are its commands. */
  ghost predicate Flying(s: State, cs: multiset<Command>) {
    |s.log| > 0 &&
    var last := s.log[|s.log| - 1];
    last.Started? && ListsOk(s.work) && s.rib == last.rib &&
    s.work.batchFaceId == last.lists.batchFaceId && s.work.records == last.lists.records &&
    (|s.work.batch| > 0 ==> s.work.nonBatch == last.lists.nonBatch) &&
    |Live(s.work)| > 0 && Outstanding(cs, Live(s.work), last.batch)
  }

  function StartedCount(s: State): nat {
    (|s.log| + 1) / 2
  }

  /** The batches ran one after the other, in the order of submission, each with one callback. */
  ghost predicate LogOk(s: State, rib0: Table) {
    forall i :: 0 <= i < |s.log| ==> LogEntryOk(s, i, rib0)
  }

  ghost predicate LogEntryOk(s: State, i: nat, rib0: Table)
    requires i < |s.log|
  {
    var e := s.log[i];
    i / 2 < |s.submitted| && e.batch == Batch(i / 2, s.submitted[i / 2]) &&
    (e.Started? <==> i % 2 == 0) &&
    if i % 2 == 0 then e.rib == if i == 0 then rib0 else s.log[i - 1].rib
    else s.log[i - 1].Started? && e.rib == if e.success then
                                             ApplyRecords(TableUpdated(s.log[i - 1].rib, e.batch.update),
                                                          s.log[i - 1].lists.records)
                                           else s.log[i - 1].rib
  }

  ghost predicate QueueOk(s: State) {
    |s.submitted| == StartedCount(s) + |s.queue| &&
    forall j :: 0 <= j < |s.queue| ==> s.queue[j] == Batch(StartedCount(s) + j, s.submitted[StartedCount(s) + j])
  }

  /** The state between two calls of the code: a batch may be about to be sent. */
  ghost predicate Quiescent(s: State, rib0: Table) {
    LogOk(s, rib0) && QueueOk(s) && (s.inProgress <==> |s.log| % 2 == 1) &&
    s.rib == (if |s.log| == 0 then rib0 else s.log[|s.log| - 1].rib) &&
    if s.inProgress then Flying(s, s.waiting + s.replied) else s.waiting + s.replied == multiset{}
  }

  /** One batch at a time, commands out for the current phase only, and no batch left waiting for nothing. */
  ghost predicate Inv(s: State, rib0: Table) {
    Quiescent(s, rib0) && (!s.inProgress ==> s.queue == [])
  }

  // ----- commands and lists -----

  lemma {:induction false} CommandsOf(list: seq<FibUpdate>, b: Batch, c: Command)
    requires UniqueKeys(list)
    ensures c in Commands(list, b) <==> c.update in list && c == Command(c.update, b, c.update.action, 0)
    ensures Commands(list, b)[c] <= 1
  {
    if |list| > 0 {
      CommandsOf(list[1..], b, c);
      assert list == [list[0]] + list[1..];
      if list[0] in list[1..] {
        var i :| 0 <= i < |list[1..]| && list[1..][i] == list[0];
        assert list[i + 1] == list[0];
      }
    }
  }

  lemma {:induction false} RemoveEqualMembers(list: seq<FibUpdate>, u: FibUpdate, v: FibUpdate)
    ensures v in RemoveEqual(list, u) <==> v in list && v != u
  {
    if |list| > 0 {
      RemoveEqualMembers(list[1..], u, v);
      assert list == [list[0]] + list[1..];
    }
  }

  lemma {:induction false} RemoveEqualUnique(list: seq<FibUpdate>, u: FibUpdate)
    requires UniqueKeys(list)
    ensures UniqueKeys(RemoveEqual(list, u))
    ensures forall i :: 0 <= i < |RemoveEqual(list, u)| ==> RemoveEqual(list, u)[i] in list
  {
    if |list| > 0 {
      RemoveEqualUnique(list[1..], u);
      var rest := RemoveEqual(list[1..], u);
      assert list == [list[0]] + list[1..];
      forall i | 0 <= i < |rest|
        ensures !(list[0].name == rest[i].name && list[0].faceId == rest[i].faceId)
      {
        var j :| 0 <= j < |list[1..]| && list[1..][j] == rest[i];
        assert list[j + 1] == rest[i];
      }
    }
  }

  /** Fresh commands for a list are outstanding for it. */
  lemma SentOutstanding(cs: multiset<Command>, list: seq<FibUpdate>, b: Batch)
    requires UniqueKeys(list) && cs == Commands(list, b)
    ensures Outstanding(cs, list, b)
  {
    forall c: Command
      ensures c in cs <==> c.update in list && c == Command(c.update, b, c.update.action, 0)
      ensures cs[c] <= 1
    {
      CommandsOf(list, b, c);
    }
    forall u | u in list
      ensures Awaited(u, cs)
    {
      assert Command(u, b, u.action, 0) in cs;
    }
  }

  /** A finished command leaves the others outstanding. */
  lemma DoneOutstanding(cs: multiset<Command>, live: seq<FibUpdate>, b: Batch, c: Command)
    requires Outstanding(cs, live, b) && c in cs
    ensures Outstanding(cs - multiset{c}, RemoveEqual(live, c.update), b)
    ensures RemoveEqual(live, c.update) == [] ==> cs == multiset{c}
  {
    var rest, live' := cs - multiset{c}, RemoveEqual(live, c.update);
    assert Expected(c, cs, live, b);
    forall d | d in cs && d != c
      ensures d.update in live' && Expected(d, rest, live', b)
    {
      assert Expected(d, cs, live, b);
      RemoveEqualMembers(live, c.update, d.update);
    }
    forall u | u in live'
      ensures Awaited(u, rest)
    {
      RemoveEqualMembers(live, c.update, u);
      assert Awaited(u, cs);
      var d :| d in cs && d.update == u;
      assert d in rest;
    }
    if live' == [] {
      assert forall d :: d in cs ==> d == c;
      assert cs == multiset{c};
    }
  }

  // ----- the callbacks of a step -----

  /** The log only grows, and only by starts and successes. */
  ghost predicate OnlySucceeds(before: seq<LogEntry>, after: seq<LogEntry>) {
    before <= after && forall i :: |before| <= i < |after| && after[i].Finished? ==> after[i].success
  }

  lemma SendBatchSucceeds(s: State, compute: Calculation)
    ensures OnlySucceeds(s.log, SendBatchFromQueue(s, compute).log)
    decreases |s.queue|, 0
  {
    if |s.queue| > 0 && !s.inProgress {
      var b := s.queue[0];
      var w := compute(s.rib, b.update);
      var s1 := s.(inProgress := true, queue := s.queue[1..], work := w, log := s.log + [Started(b, s.rib, s.fib, w)]);
      if |w.batch| == 0 {
        SendNonBatchSucceeds(s1, b, compute);
      }
    }
  }

  lemma SendNonBatchSucceeds(s: State, b: Batch, compute: Calculation)
    ensures OnlySucceeds(s.log, SendUpdatesForNonBatchFaceId(s, b, compute).log)
    decreases |s.queue|, 2
  {
    if |s.work.nonBatch| == 0 {
      SuccessSucceeds(s, b, compute);
    }
  }

  lemma SuccessSucceeds(s: State, b: Batch, compute: Calculation)
    ensures OnlySucceeds(s.log, OnFibUpdateSuccess(s, b, compute).log)
    decreases |s.queue|, 1
  {
    var rib := ApplyRecords(TableUpdated(s.rib, b.update), s.work.records);
    var s1 := s.(rib := rib, inProgress := false, log := s.log + [Finished(b, rib, s.fib, true)]);
    SendBatchSucceeds(s1, compute);
  }

  lemma DoneSucceeds(s: State, c: Command, compute: Calculation)
    ensures OnlySucceeds(s.log, OnUpdateSuccess(s, c, compute).log)
    ensures OnlySucceeds(s.log, NonBatchUpdateDone(s, c, compute).log)
  {
    var s1 := s.(work := s.work.(batch := RemoveEqual(s.work.batch, c.update)));
    SendNonBatchSucceeds(s1, c.batch, compute);
    var s2 := s.(work := s.work.(nonBatch := RemoveEqual(s.work.nonBatch, c.update)));
    SuccessSucceeds(s2, c.batch, compute);
  }

  lemma {:induction false} QueueAllLog(s: State, us: seq<RibUpdate>)
    ensures var s' := AddAllToQueue(s, us); s' == s.(submitted := s'.submitted, queue := s'.queue)
    decreases |us|
  {
    if |us| > 0 {
      QueueAllLog(AddUpdateToQueue(s, us[0]), us[1..]);
    }
  }

  /** A step calls a failure callback exactly for a rejected batch-face command, once and before anything else. */
  lemma StepOutcome(s: State, e: Event, compute: Calculation)
    ensures var before, after := s.log, Step(s, e, compute).log;
            before <= after &&
            (forall i :: |before| <= i < |after| && after[i].Finished? ==>
               (after[i].success <==> !(Rejection(s, e) && i == |before|))) &&
            (Rejection(s, e) ==>
               |after| > |before| && after[|before|] == Finished(e.command.batch, s.rib, s.fib, false))
  {
    if Rejection(s, e) {
      var c := e.command;
      FailureOutcome(s.(waiting := s.waiting - multiset{c}), c.batch, compute);
    } else {
      OtherOutcome(s, e, compute);
    }
  }

  lemma FailureOutcome(s: State, b: Batch, compute: Calculation)
    ensures var after := OnFibUpdateFailure(s, b, compute).log;
            OnlySucceeds(s.log + [Finished(b, s.rib, s.fib, false)], after) && s.log <= after &&
            |after| > |s.log| && after[|s.log|] == Finished(b, s.rib, s.fib, false)
  {
    SendBatchSucceeds(s.(inProgress := false, log := s.log + [Finished(b, s.rib, s.fib, false)]), compute);
  }

  lemma OtherOutcome(s: State, e: Event, compute: Calculation)
    requires !Rejection(s, e)
    ensures OnlySucceeds(s.log, Step(s, e, compute).log)
  {
    match e
    case Submit(u) => SendBatchSucceeds(AddUpdateToQueue(s, u), compute);
    case FaceRemoved(f, routes) =>
      QueueAllLog(s, FaceUpdates(routes));
      SendBatchSucceeds(AddAllToQueue(s, FaceUpdates(routes)), compute);
    case Ack(c) => DoneSucceeds(s.(replied := s.replied - multiset{c}), c, compute);
    case FaceNotFound(c) => DoneSucceeds(s.(waiting := s.waiting - multiset{c}), c, compute);
    case _ =>
  }

  // ----- sending keeps the invariant -----

  lemma LogGrows(s: State, s': State, e: LogEntry, rib0: Table)
    requires LogOk(s, rib0) && s'.submitted == s.submitted && s'.log == s.log + [e]
    requires LogEntryOk(s', |s.log|, rib0)
    ensures LogOk(s', rib0)
  {
    forall i | 0 <= i < |s'.log|
      ensures LogEntryOk(s', i, rib0)
    {
      if i < |s.log| {
        assert LogEntryOk(s, i, rib0);
      }
    }
  }

  /** A batch was started and its commands so far are acknowledged. */
  ghost predicate Between(s: State, b: Batch, rib0: Table) {
    LogOk(s, rib0) && QueueOk(s) && s.inProgress && |s.log| % 2 == 1 && s.waiting + s.replied == multiset{} &&
    var last := s.log[|s.log| - 1];
    last.Started? && last.batch == b && s.rib == last.rib && ListsOk(s.work) && s.work.batch == [] &&
    s.work.batchFaceId == last.lists.batchFaceId && s.work.records == last.lists.records
  }

  lemma SendBatchKeeps(s: State, compute: Calculation, rib0: Table)
    requires Quiescent(s, rib0) && CalculationOk(compute)
    ensures Inv(SendBatchFromQueue(s, compute), rib0)
    decreases |s.queue|, 0
  {
    if |s.queue| > 0 && !s.inProgress {
      var b := s.queue[0];
      var w := compute(s.rib, b.update);
      var e := Started(b, s.rib, s.fib, w);
      var s1 := s.(inProgress := true, queue := s.queue[1..], work := w, log := s.log + [e]);
      assert ListsOk(w) && w.batchFaceId == b.update.route.faceId;
      assert b == Batch(|s.log| / 2, s.submitted[|s.log| / 2]);
      LogGrows(s, s1, e, rib0);
      assert QueueOk(s1);
      if |w.batch| > 0 {
        SentKeeps(s1, b, w.batch, rib0);
      } else {
        SendNonBatchKeeps(s1, b, compute, rib0);
      }
    }
  }

  lemma SentKeeps(s: State, b: Batch, live: seq<FibUpdate>, rib0: Table)
    requires LogOk(s, rib0) && QueueOk(s) && s.inProgress && |s.log| % 2 == 1 && s.waiting + s.replied == multiset{}
    requires var last := s.log[|s.log| - 1];
             last.Started? && last.batch == b && s.rib == last.rib && ListsOk(s.work) &&
             s.work.batchFaceId == last.lists.batchFaceId && s.work.records == last.lists.records
    requires |s.work.batch| > 0 ==> s.work.nonBatch == s.log[|s.log| - 1].lists.nonBatch
    requires live == Live(s.work) && |live| > 0
    ensures Inv(s.(waiting := s.waiting + Commands(live, b)), rib0)
  {
    var s' := s.(waiting := s.waiting + Commands(live, b));
    assert s'.waiting + s'.replied == Commands(live, b);
    SentOutstanding(s'.waiting + s'.replied, live, b);
    SameLog(s, s', rib0);
  }

  lemma SameLog(s: State, s': State, rib0: Table)
    requires LogOk(s, rib0) && s'.log == s.log && s.submitted <= s'.submitted
    ensures LogOk(s', rib0)
  {
    forall i | 0 <= i < |s'.log|
      ensures LogEntryOk(s', i, rib0)
    {
      assert LogEntryOk(s, i, rib0);
    }
  }

  lemma SendNonBatchKeeps(s: State, b: Batch, compute: Calculation, rib0: Table)
    requires Between(s, b, rib0) && CalculationOk(compute)
    ensures Inv(SendUpdatesForNonBatchFaceId(s, b, compute), rib0)
    decreases |s.queue|, 2
  {
    if |s.work.nonBatch| > 0 {
      SentKeeps(s, b, s.work.nonBatch, rib0);
    } else {
      SuccessKeeps(s, b, compute, rib0);
    }
  }

  lemma SuccessKeeps(s: State, b: Batch, compute: Calculation, rib0: Table)
    requires Between(s, b, rib0) && CalculationOk(compute)
    ensures Inv(OnFibUpdateSuccess(s, b, compute), rib0)
    decreases |s.queue|, 1
  {
    var rib := ApplyRecords(TableUpdated(s.rib, b.update), s.work.records);
    var e := Finished(b, rib, s.fib, true);
    var s1 := s.(rib := rib, inProgress := false, log := s.log + [e]);
    assert LogEntryOk(s, |s.log| - 1, rib0);
    LogGrows(s, s1, e, rib0);
    SendBatchKeeps(s1, compute, rib0);
  }

  lemma FailureKeeps(s: State, b: Batch, compute: Calculation, rib0: Table)
    requires LogOk(s, rib0) && QueueOk(s) && s.inProgress && |s.log| % 2 == 1 && s.waiting + s.replied == multiset{}
    requires s.log[|s.log| - 1].Started? && s.log[|s.log| - 1].batch == b && s.rib == s.log[|s.log| - 1].rib
    requires CalculationOk(compute)
    ensures Inv(OnFibUpdateFailure(s, b, compute), rib0)
  {
    var e := Finished(b, s.rib, s.fib, false);
    var s1 := s.(inProgress := false, log := s.log + [e]);
    assert LogEntryOk(s, |s.log| - 1, rib0);
    LogGrows(s, s1, e, rib0);
    SendBatchKeeps(s1, compute, rib0);
  }

  // ----- every step keeps the invariant -----

  lemma ListsAfterRemove(w: Lists, u: FibUpdate)
    requires ListsOk(w)
    ensures ListsOk(w.(batch := RemoveEqual(w.batch, u))) && ListsOk(w.(nonBatch := RemoveEqual(w.nonBatch, u)))
  {
    RemoveEqualUnique(w.batch, u);
    RemoveEqualUnique(w.nonBatch, u);
  }

  /** The state while a command that is done is taken from its list; cs are the commands before. */
  ghost predicate Landing(s: State, c: Command, cs: multiset<Command>, rib0: Table) {
    LogOk(s, rib0) && QueueOk(s) && s.inProgress && |s.log| % 2 == 1 && c in cs &&
      s.waiting + s.replied == cs - multiset{c} &&
    Flying(s, cs)
  }

  lemma DonePhase(s: State, c: Command, cs: multiset<Command>, rib0: Table)
    requires Landing(s, c, cs, rib0)
    ensures c.batch == s.log[|s.log| - 1].batch && (c.update.faceId == s.work.batchFaceId <==> |s.work.batch| > 0)
  {
    assert Expected(c, cs, Live(s.work), s.log[|s.log| - 1].batch);
  }

  /** The state once the update of a finished command is struck from its list. */
  function Struck(s: State, u: FibUpdate): State {
    s.(work := if |s.work.batch| > 0 then s.work.(batch := RemoveEqual(s.work.batch, u))
               else s.work.(nonBatch := RemoveEqual(s.work.nonBatch, u)))
  }

  /** Either other commands of the phase are outstanding, or the phase is over and nothing is under way. */
  lemma StruckState(s: State, c: Command, cs: multiset<Command>, rib0: Table)
    requires Landing(s, c, cs, rib0)
    ensures var s1 := Struck(s, c.update);
            c.batch == s.log[|s.log| - 1].batch && (c.update.faceId == s.work.batchFaceId <==> |s.work.batch| > 0) &&
            if (if |s.work.batch| > 0 then s1.work.batch else s1.work.nonBatch) != [] then Inv(s1, rib0)
            else Between(s1, c.batch, rib0)
  {
    DonePhase(s, c, cs, rib0);
    DoneOutstanding(cs, Live(s.work), c.batch, c);
    ListsAfterRemove(s.work, c.update);
    SameLog(s, Struck(s, c.update), rib0);
  }

  lemma BatchDoneKeeps(s: State, c: Command, compute: Calculation, cs: multiset<Command>, rib0: Table)
    requires Landing(s, c, cs, rib0) && |s.work.batch| > 0 && CalculationOk(compute)
    ensures Inv(OnUpdateSuccess(s, c, compute), rib0)
  {
    StruckState(s, c, cs, rib0);
    var s1 := Struck(s, c.update);
    if |s1.work.batch| == 0 {
      SendNonBatchKeeps(s1, c.batch, compute, rib0);
    }
  }

  lemma NonBatchDoneKeeps(s: State, c: Command, compute: Calculation, cs: multiset<Command>, rib0: Table)
    requires Landing(s, c, cs, rib0) && |s.work.batch| == 0 && CalculationOk(compute)
    ensures Inv(NonBatchUpdateDone(s, c, compute), rib0)
  {
    StruckState(s, c, cs, rib0);
    var s1 := Struck(s, c.update);
    if |s1.work.nonBatch| == 0 {
      SuccessKeeps(s1, c.batch, compute, rib0);
    }
  }

  lemma {:induction false} QueueAllKeeps(s: State, us: seq<RibUpdate>, rib0: Table)
    requires Quiescent(s, rib0)
    ensures Quiescent(AddAllToQueue(s, us), rib0) && AddAllToQueue(s, us).log == s.log
    decreases |us|
  {
    if |us| > 0 {
      QueueKeeps(s, us[0], rib0);
      QueueAllKeeps(AddUpdateToQueue(s, us[0]), us[1..], rib0);
    }
  }

  lemma QueueKeeps(s: State, u: RibUpdate, rib0: Table)
    requires Quiescent(s, rib0)
    ensures Quiescent(AddUpdateToQueue(s, u), rib0)
  {
    SameLog(s, AddUpdateToQueue(s, u), rib0);
  }

  /** A retried command stands for the same update. */
  lemma RetryOutstanding(cs: multiset<Command>, live: seq<FibUpdate>, b: Batch, c: Command)
    requires Outstanding(cs, live, b) && c in cs
    ensures Outstanding(cs - multiset{c} + multiset{Retried(c)}, live, b)
  {
    var c' := Retried(c);
    var cs' := cs - multiset{c} + multiset{c'};
    assert Expected(c, cs, live, b);
    assert c' !in cs;
    forall d | d in cs'
      ensures Expected(d, cs', live, b)
    {
      assert d != c' ==> d in cs && Expected(d, cs, live, b);
    }
    forall u | u in live
      ensures Awaited(u, cs')
    {
      assert Awaited(u, cs);
      var d :| d in cs && d.update == u;
      assert d in cs' || (c' in cs' && c'.update == u);
    }
  }

  lemma AckKeeps(s: State, c: Command, compute: Calculation, rib0: Table)
    requires Inv(s, rib0) && CalculationOk(compute) && c in s.replied
    ensures Inv(Step(s, Ack(c), compute), rib0)
  {
    var s1, cs := s.(replied := s.replied - multiset{c}), s.waiting + s.replied;
    assert c in cs && s1.waiting + s1.replied == cs - multiset{c};
    SameLog(s, s1, rib0);
    DonePhase(s1, c, cs, rib0);
    if |s.work.batch| > 0 {
      BatchDoneKeeps(s1, c, compute, cs, rib0);
    } else {
      NonBatchDoneKeeps(s1, c, compute, cs, rib0);
    }
  }

  lemma FaceNotFoundKeeps(s: State, c: Command, compute: Calculation, rib0: Table)
    requires Inv(s, rib0) && CalculationOk(compute) && c in s.waiting && Orderly(s, FaceNotFound(c))
    ensures Inv(Step(s, FaceNotFound(c), compute), rib0)
  {
    var s1, cs := s.(waiting := s.waiting - multiset{c}), s.waiting + s.replied;
    assert c in cs && s1.waiting + s1.replied == cs - multiset{c};
    SameLog(s, s1, rib0);
    DonePhase(s1, c, cs, rib0);
    if |s.work.batch| > 0 {
      FailureKeeps(s1, c.batch, compute, rib0);
    } else {
      NonBatchDoneKeeps(s1, c, compute, cs, rib0);
    }
  }

  lemma ExecuteKeeps(s: State, c: Command, compute: Calculation, rib0: Table)
    requires Inv(s, rib0) && c in s.waiting
    ensures Inv(Step(s, Execute(c), compute), rib0)
  {
    var s' := Step(s, Execute(c), compute);
    assert s'.waiting + s'.replied == s.waiting + s.replied;
    SameLog(s, s', rib0);
  }

  lemma RetrySum(a: multiset<Command>, b: multiset<Command>, c: Command, d: Command)
    ensures c in a ==> a - multiset{c} + multiset{d} + b == a + b - multiset{c} + multiset{d}
    ensures c in b ==> a + multiset{d} + (b - multiset{c}) == a + b - multiset{c} + multiset{d}
  {
  }

  lemma TimeoutKeeps(s: State, c: Command, compute: Calculation, rib0: Table)
    requires Inv(s, rib0) && (c in s.waiting || c in s.replied)
    ensures Inv(Step(s, Timeout(c), compute), rib0)
  {
    var s', cs, d := Step(s, Timeout(c), compute), s.waiting + s.replied, Retried(c);
    assert c in cs;
    RetrySum(s.waiting, s.replied, c, d);
    RetryOutstanding(cs, Live(s.work), s.log[|s.log| - 1].batch, c);
    RetriedKeeps(s, s', cs - multiset{c} + multiset{d}, rib0);
  }

  /** Other commands of the running batch, for the same updates. */
  lemma RetriedKeeps(s: State, s': State, cs: multiset<Command>, rib0: Table)
    requires Inv(s, rib0) && s.inProgress && s' == s.(waiting := s'.waiting, replied := s'.replied)
    requires s'.waiting + s'.replied == cs && Outstanding(cs, Live(s.work), s.log[|s.log| - 1].batch)
    ensures Inv(s', rib0)
  {
    SameLog(s, s', rib0);
  }

  // ----- commands of a failed batch that are left under way -----

  /** d is under way, and its batch is neither queued nor running. */
  ghost predicate Stray(s: State, d: Command) {
    d in s.waiting + s.replied && d.batch !in s.queue &&
    (s.inProgress ==> |s.log| > 0 && s.log[|s.log| - 1].batch != d.batch)
  }

  lemma StrayBreaksInv(s: State, d: Command, rib0: Table)
    requires Stray(s, d)
    ensures !Inv(s, rib0)
  {
    if Inv(s, rib0) && s.inProgress {
      FlyingBatch(s, s.waiting + s.replied, d);
    }
  }

  lemma FlyingBatch(s: State, cs: multiset<Command>, c: Command)
    requires Flying(s, cs) && c in cs
    ensures c.batch == s.log[|s.log| - 1].batch
  {
    assert Expected(c, cs, Live(s.work), s.log[|s.log| - 1].batch);
  }

  lemma SendBatchStrays(s: State, d: Command, compute: Calculation)
    requires Stray(s, d) && !s.inProgress
    ensures Stray(SendBatchFromQueue(s, compute), d)
    decreases |s.queue|, 0
  {
    if |s.queue| > 0 {
      var b := s.queue[0];
      var w := compute(s.rib, b.update);
      var s1 := s.(inProgress := true, queue := s.queue[1..], work := w, log := s.log + [Started(b, s.rib, s.fib, w)]);
      assert b in s.queue && forall x :: x in s1.queue ==> x in s.queue;
      if |w.batch| == 0 {
        SendNonBatchStrays(s1, b, d, compute);
      }
    }
  }

  lemma SendNonBatchStrays(s: State, b: Batch, d: Command, compute: Calculation)
    requires Stray(s, d) && s.inProgress
    ensures Stray(SendUpdatesForNonBatchFaceId(s, b, compute), d)
    decreases |s.queue|, 2
  {
    if |s.work.nonBatch| == 0 {
      var rib := ApplyRecords(TableUpdated(s.rib, b.update), s.work.records);
      SendBatchStrays(s.(rib := rib, inProgress := false, log := s.log + [Finished(b, rib, s.fib, true)]), d, compute);
    }
  }

  /** Another command of the failed batch stays under way and ends among those of a later batch, or of none. */
  lemma DisorderBreaks(s: State, e: Event, compute: Calculation, rib0: Table)
    requires Inv(s, rib0) && Enabled(s, e) && !Orderly(s, e)
    ensures !Inv(Step(s, e, compute), rib0)
  {
    var c, cs, b := e.command, s.waiting + s.replied, s.log[|s.log| - 1].batch;
    assert c in cs && Expected(c, cs, Live(s.work), b);
    var d := OtherCommand(cs, c);
    assert Expected(d, cs, Live(s.work), b);
    assert LogEntryOk(s, |s.log| - 1, rib0);
    var s1 := s.(waiting := s.waiting - multiset{c}, inProgress := false,
                 log := s.log + [Finished(b, s.rib, s.fib, false)]);
    assert d in s1.waiting + s1.replied;
    SendBatchStrays(s1, d, compute);
    StrayBreaksInv(Step(s, e, compute), d, rib0);
  }

  lemma OtherCommand(cs: multiset<Command>, c: Command) returns (d: Command)
    requires cs[c] == 1 && cs != multiset{c}
    ensures d in cs && d != c
  {
    if forall x :: x in cs ==> x == c {
      OnlyCommand(cs, c);
    }
    d :| d in cs && d != c;
  }

  lemma OnlyCommand(cs: multiset<Command>, c: Command)
    requires cs[c] == 1 && forall x :: x in cs ==> x == c
    ensures cs == multiset{c}
  {
  }

  /**
   * Whatever happens, in any order, one batch runs at a time and every one ends in exactly one callback, if and only if
   * no batch-face command is rejected while another command is under way.
   */
  lemma StepKeeps(s: State, e: Event, compute: Calculation, rib0: Table)
    requires Inv(s, rib0) && CalculationOk(compute) && Enabled(s, e)
    ensures Inv(Step(s, e, compute), rib0) <==> Orderly(s, e)
  {
    if !Orderly(s, e) {
      DisorderBreaks(s, e, compute, rib0);
    } else {
      match e
      case Submit(u) =>
        QueueKeeps(s, u, rib0);
        SendBatchKeeps(AddUpdateToQueue(s, u), compute, rib0);
      case FaceRemoved(f, routes) =>
        QueueAllKeeps(s, FaceUpdates(routes), rib0);
        SendBatchKeeps(AddAllToQueue(s, FaceUpdates(routes)), compute, rib0);
      case Execute(c) => ExecuteKeeps(s, c, compute, rib0);
      case Ack(c) => AckKeeps(s, c, compute, rib0);
      case FaceNotFound(c) => FaceNotFoundKeeps(s, c, compute, rib0);
      case Timeout(c) => TimeoutKeeps(s, c, compute, rib0);
    }
  }
}
