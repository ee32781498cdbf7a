/** What each step submits, and what becomes of the routes of a destroyed face (rib.cpp, beginRemoveFace). */
module ProtocolFaces {
  import opened Wrappers
  import opened Names
  import opened Routes
  import opened RibModel
  import opened RibTable
  import opened RibRoutes
  import opened FibUpdates
  import opened UpdateProtocol
  import opened ProtocolRuns

  // ----- what a step submits -----

  lemma {:induction false} QueuedAll(s: State, us: seq<RibUpdate>)
    ensures AddAllToQueue(s, us).submitted == s.submitted + us
    decreases |us|
  {
    if |us| > 0 {
      QueuedAll(AddUpdateToQueue(s, us[0]), us[1..]);
      assert s.submitted + [us[0]] + us[1..] == s.submitted + us;
    } else {
      assert s.submitted + us == s.submitted;
    }
  }

  lemma SendBatchSubmits(s: State, compute: Calculation)
    ensures SendBatchFromQueue(s, compute).submitted == s.submitted
    decreases |s.queue|, 0
  {
    if |s.queue| > 0 && !s.inProgress {
      var b := s.queue[0];
      var w := compute(s.rib, b.update);
      var s1 := s.(inProgress := true, queue := s.queue[1..], work := w, log := s.log + [Started(b, s.rib, s.fib, w)]);
      if |w.batch| == 0 {
        NonBatchSubmits(s1, b, compute);
      }
    }
  }

  lemma NonBatchSubmits(s: State, b: Batch, compute: Calculation)
    ensures SendUpdatesForNonBatchFaceId(s, b, compute).submitted == s.submitted
    ensures OnFibUpdateSuccess(s, b, compute).submitted == s.submitted
    decreases |s.queue|, 2
  {
    var rib := ApplyRecords(TableUpdated(s.rib, b.update), s.work.records);
    SendBatchSubmits(s.(rib := rib, inProgress := false, log := s.log + [Finished(b, rib, s.fib, true)]), compute);
  }

  lemma DoneSubmits(s: State, c: Command, compute: Calculation)
    ensures OnUpdateSuccess(s, c, compute).submitted == s.submitted
    ensures OnFaceNotFound(s, c, compute).submitted == s.submitted
  {
    NonBatchSubmits(s.(work := s.work.(batch := RemoveEqual(s.work.batch, c.update))), c.batch, compute);
    NonBatchSubmits(s.(work := s.work.(nonBatch := RemoveEqual(s.work.nonBatch, c.update))), c.batch, compute);
    SendBatchSubmits(s.(inProgress := false, log := s.log + [Finished(c.batch, s.rib, s.fib, false)]), compute);
  }

  /**
   * A submission appends its update. A destroyed face appends one removal for each route on it in the RIB of that
   * moment, and nothing else. No other step appends anything.
   */
  lemma StepSubmits(s: State, e: Event, compute: Calculation)
    requires Enabled(s, e)
    ensures var s' := Step(s, e, compute);
            s.submitted <= s'.submitted &&
            var more := s'.submitted[|s.submitted|..];
            (e.Submit? ==> more == [e.update]) &&
            (e.FaceRemoved? ==>
               |more| == |e.routes| &&
               forall u :: u in more <==>
                 u.action == RemoveFace && u.route.faceId == e.faceId && u.name in s.rib &&
                 u.route in s.rib[u.name].routes) &&
            (!e.Submit? && !e.FaceRemoved? ==> more == [])
  {
    match e
    case Submit(u) => SendBatchSubmits(AddUpdateToQueue(s, u), compute);
    case FaceRemoved(f, routes) =>
      QueuedAll(s, FaceUpdates(routes));
      SendBatchSubmits(AddAllToQueue(s, FaceUpdates(routes)), compute);
      RemovalsOf(s, f, routes);
    case Execute(c) =>
    case Ack(c) => DoneSubmits(s.(replied := s.replied - multiset{c}), c, compute);
    case FaceNotFound(c) => DoneSubmits(s.(waiting := s.waiting - multiset{c}), c, compute);
    case Timeout(c) =>
  }

  lemma RemovalsOf(s: State, f: nat, routes: seq<(Name, Route)>)
    requires Enabled(s, FaceRemoved(f, routes))
    ensures |FaceUpdates(routes)| == |routes|
    ensures forall u :: u in FaceUpdates(routes) <==>
              u.action == RemoveFace && u.route.faceId == f && u.name in s.rib && u.route in s.rib[u.name].routes
  {
    var us := FaceUpdates(routes);
    forall u
      ensures u in us <==> u.action == RemoveFace && (u.name, u.route) in routes
    {
      if u.action == RemoveFace && (u.name, u.route) in routes {
        var i :| 0 <= i < |routes| && routes[i] == (u.name, u.route);
        assert us[i] == u;
      }
    }
  }

  // ----- the RIB after each batch -----

  /** The RIB after the first i batches. */
  function RibAfter(s: State, rib0: Table, i: nat): Table
    requires 2 * i <= |s.log|
  {
    if i == 0 then rib0 else s.log[2 * i - 1].rib
  }

  predicate Successes(s: State) {
    forall i :: 0 <= i < |s.log| && s.log[i].Finished? ==> s.log[i].success
  }

  lemma ServedStep(s: State, rib0: Table, i: nat)
    requires LogOk(s, rib0) && Successes(s) && 2 * i + 2 <= |s.log|
    ensures i < |s.submitted| && s.log[2 * i].Started?
    ensures RibAfter(s, rib0, i + 1) ==
            ApplyRecords(TableUpdated(RibAfter(s, rib0, i), s.submitted[i]), s.log[2 * i].lists.records)
  {
    assert LogEntryOk(s, 2 * i, rib0) && LogEntryOk(s, 2 * i + 1, rib0);
  }

  lemma UpdatedAt(t: Table, u: RibUpdate, us: seq<RibUpdate>, n: Name, f: nat, o: nat)
    requires RoutesOk(t)
    ensures var t' := ApplyRecords(TableUpdated(t, u), us);
            RoutesOk(t') &&
            RouteAt(t', n, f, o) == if n == u.name && f == u.route.faceId && o == u.route.origin then
                                      if u.action == Register then Some(u.route) else None
                                    else RouteAt(t, n, f, o)
  {
    RecordsKeepRoutes(TableUpdated(t, u), us);
    RoutesAfterInsert(t, u.name, u.route);
    ErasedOk(t, u.name, u.route);
    InsertedAt(t, u.name, u.route, n, f, o);
    ErasedAt(t, u.name, u.route, n, f, o);
  }

  lemma {:induction false} ServedOk(s: State, rib0: Table, i: nat)
    requires LogOk(s, rib0) && Successes(s) && 2 * i <= |s.log| && RoutesOk(rib0)
    ensures RoutesOk(RibAfter(s, rib0, i))
  {
    if i > 0 {
      ServedOk(s, rib0, i - 1);
      ServedStep(s, rib0, i - 1);
      UpdatedAt(RibAfter(s, rib0, i - 1), s.submitted[i - 1], s.log[2 * (i - 1)].lists.records, [], 0, 0);
    }
  }

  /** What the last update about a name, face and origin leaves there. */
  function LastUpdate(us: seq<RibUpdate>, n: Name, f: nat, o: nat, before: Option<Route>): Option<Route> {
    if |us| == 0 then before
    else
      var u := us[|us| - 1];
      if u.name == n && u.route.faceId == f && u.route.origin == o then
        if u.action == Register then Some(u.route) else None
      else LastUpdate(us[..|us| - 1], n, f, o, before)
  }

  lemma {:induction false} ServedRoutes(s: State, rib0: Table, i: nat, n: Name, f: nat, o: nat)
    requires LogOk(s, rib0) && Successes(s) && 2 * i <= |s.log| && i <= |s.submitted| && RoutesOk(rib0)
    ensures RouteAt(RibAfter(s, rib0, i), n, f, o) == LastUpdate(s.submitted[..i], n, f, o, RouteAt(rib0, n, f, o))
  {
    if i > 0 {
      ServedRoutes(s, rib0, i - 1, n, f, o);
      ServedOk(s, rib0, i - 1);
      ServedStep(s, rib0, i - 1);
      UpdatedAt(RibAfter(s, rib0, i - 1), s.submitted[i - 1], s.log[2 * (i - 1)].lists.records, n, f, o);
      assert s.submitted[..i][..i - 1] == s.submitted[..i - 1];
    }
  }

  predicate RegistersOn(u: RibUpdate, f: nat) {
    u.action == Register && u.route.faceId == f
  }

  predicate RemovesAt(u: RibUpdate, n: Name, f: nat, o: nat) {
    u.action != Register && u.name == n && u.route.faceId == f && u.route.origin == o
  }

  /** While nothing is registered on a face, a route that is on it was there before, and no batch removed it. */
  lemma {:induction false} FaceShrinks(s: State, rib0: Table, i: nat, j: nat, n: Name, f: nat, o: nat)
    requires LogOk(s, rib0) && Successes(s) && RoutesOk(rib0) && i <= j && 2 * j <= |s.log| && j <= |s.submitted|
    requires forall q :: i <= q < j ==> !RegistersOn(s.submitted[q], f)
    ensures RouteAt(RibAfter(s, rib0, j), n, f, o).Some? ==>
              RouteAt(RibAfter(s, rib0, i), n, f, o) == RouteAt(RibAfter(s, rib0, j), n, f, o) &&
              forall q :: i <= q < j ==> !RemovesAt(s.submitted[q], n, f, o)
    decreases j
  {
    if i < j {
      FaceShrinks(s, rib0, i, j - 1, n, f, o);
      ServedOk(s, rib0, j - 1);
      ServedStep(s, rib0, j - 1);
      UpdatedAt(RibAfter(s, rib0, j - 1), s.submitted[j - 1], s.log[2 * (j - 1)].lists.records, n, f, o);
    }
  }

  // ----- runs -----

  /** The updates from position `from` on register nothing on the face. */
  predicate NoneFrom(us: seq<RibUpdate>, from: nat, f: nat) {
    forall q :: from <= q < |us| ==> !RegistersOn(us[q], f)
  }

  lemma NoneFromMore(before: seq<RibUpdate>, after: seq<RibUpdate>, from: nat, f: nat)
    requires before <= after && NoneFrom(before, from, f) && NoneFrom(after[|before|..], 0, f)
    ensures NoneFrom(after, from, f)
  {
    forall q | |before| <= q < |after|
      ensures !RegistersOn(after[q], f)
    {
      assert after[q] == after[|before|..][q - |before|];
    }
  }

  lemma StepGrows(s: State, e: Event, compute: Calculation, from: nat, f: nat)
    requires Enabled(s, e) && (e.Submit? ==> !RegistersOn(e.update, f)) && NoneFrom(s.submitted, from, f)
    ensures var s' := Step(s, e, compute);
            s.log <= s'.log && s.submitted <= s'.submitted && NoneFrom(s'.submitted, from, f)
  {
    StepOutcome(s, e, compute);
    StepSubmits(s, e, compute);
    NoneFromMore(s.submitted, Step(s, e, compute).submitted, from, f);
  }

  /** Along a run only more is logged and submitted, and registrations on the face come from submissions only. */
  lemma {:induction false} RunGrows(states: seq<State>, events: seq<Event>, compute: Calculation, m: nat, k: nat,
                                    from: nat, f: nat)
    requires IsRun(states, events, compute) && m <= k <= |events| && NoneFrom(states[m].submitted, from, f)
    requires forall i :: m <= i < k && events[i].Submit? ==> !RegistersOn(events[i].update, f)
    ensures states[m].log <= states[k].log && states[m].submitted <= states[k].submitted
    ensures NoneFrom(states[k].submitted, from, f)
    decreases k
  {
    if m < k {
      RunGrows(states, events, compute, m, k - 1, from, f);
      StepGrows(states[k - 1], events[k - 1], compute, from, f);
    }
  }

  /** What the theorems about runs say of one state. */
  ghost predicate Serving(s: State, rib0: Table) {
    LogOk(s, rib0) && Successes(s) && |s.log| / 2 <= |s.submitted| && s.rib == RibAfter(s, rib0, |s.log| / 2) &&
    (!s.inProgress ==> |s.log| == 2 * |s.submitted|)
  }

  lemma RunServes(states: seq<State>, events: seq<Event>, compute: Calculation, rib0: Table, fib0: Fib, k: nat)
    requires IsRunFrom(states, events, compute, rib0, fib0) && k <= |events|
    requires forall i :: 0 <= i < k ==> !Rejection(states[i], events[i])
    ensures Serving(states[k], rib0)
  {
    BatchesSucceed(states, events, compute, rib0, fib0, k);
    RunKeeps(states, events, compute, rib0, fib0, k);
    var s := states[k];
    assert Inv(s, rib0);
    if |s.log| > 0 {
      assert LogEntryOk(s, |s.log| - 1, rib0);
    }
  }

  /** No update that is not served yet registers a route on the face. */
  predicate NoneQueued(s: State, f: nat) {
    NoneFrom(s.submitted, |s.log| / 2, f)
  }

  lemma SameRibAfter(s: State, s': State, rib0: Table, i: nat)
    requires s.log <= s'.log && 2 * i <= |s.log|
    ensures RibAfter(s, rib0, i) == RibAfter(s', rib0, i)
  {
  }

  /** The removal of a route that was on the face is among the updates that its destruction submitted. */
  lemma RemovalSubmitted(s: State, e: Event, compute: Calculation, n: Name, r: Route)
    requires Enabled(s, e) && e.FaceRemoved? && n in s.rib && r in s.rib[n].routes && r.faceId == e.faceId
    ensures var s' := Step(s, e, compute);
            exists q :: |s.submitted| <= q < |s'.submitted| && RemovesAt(s'.submitted[q], n, r.faceId, r.origin)
  {
    StepSubmits(s, e, compute);
    var s' := Step(s, e, compute);
    var more, u := s'.submitted[|s.submitted|..], RibUpdate(RemoveFace, n, r);
    assert u in more;
    var i :| 0 <= i < |more| && more[i] == u;
    assert s'.submitted[|s.submitted| + i] == u;
  }

  /** Every route on the face was removed by one of the batches since then, and none was registered. */
  lemma AllRemoved(s: State, rib0: Table, i: nat, n: Name, r: Route, f: nat)
    requires LogOk(s, rib0) && Successes(s) && RoutesOk(rib0) && i <= |s.log| / 2 <= |s.submitted|
    requires s.rib == RibAfter(s, rib0, |s.log| / 2) && NoneFrom(s.submitted, i, f)
    requires var t := RibAfter(s, rib0, i);
             forall n, r :: n in t && r in t[n].routes && r.faceId == f ==>
               exists q :: i <= q < |s.log| / 2 && RemovesAt(s.submitted[q], n, f, r.origin)
    ensures n in s.rib && r in s.rib[n].routes ==> r.faceId != f
  {
    var j, t := |s.log| / 2, RibAfter(s, rib0, i);
    ServedOk(s, rib0, i);
    ServedOk(s, rib0, j);
    if n in s.rib {
      RouteOfMeaning(s.rib[n].routes, r);
    }
    if n in t {
      RouteOfMeaning(t[n].routes, r);
    }
    FaceShrinks(s, rib0, i, j, n, f, r.origin);
  }

  /** Once the removals of a destroyed face are served, each route that was on it has been removed. */
  lemma RemovalsServed(s0: State, e: Event, compute: Calculation, s: State, f: nat)
    requires Enabled(s0, e) && e.FaceRemoved? && f == e.faceId && |s0.log| / 2 <= |s0.submitted|
    requires Step(s0, e, compute).submitted <= s.submitted && |Step(s0, e, compute).submitted| <= |s.log| / 2
    requires |s.log| / 2 <= |s.submitted|
    ensures forall n, r :: n in s0.rib && r in s0.rib[n].routes && r.faceId == f ==>
              exists q :: |s0.log| / 2 <= q < |s.log| / 2 && RemovesAt(s.submitted[q], n, f, r.origin)
  {
    var s1 := Step(s0, e, compute);
    forall n, r | n in s0.rib && r in s0.rib[n].routes && r.faceId == f
      ensures exists q :: |s0.log| / 2 <= q < |s.log| / 2 && RemovesAt(s.submitted[q], n, f, r.origin)
    {
      RemovalSubmitted(s0, e, compute, n, r);
      var q :| |s0.submitted| <= q < |s1.submitted| && RemovesAt(s1.submitted[q], n, f, r.origin);
      assert s.submitted[q] == s1.submitted[q];
    }
  }

  /**
   * A face is destroyed while no registration on it waits, none is submitted afterwards, and no batch fails: once the
   * batches of its removal are served, and so at rest, no entry has a route on it.
   */
  lemma FaceCleared(states: seq<State>, events: seq<Event>, compute: Calculation, rib0: Table, fib0: Fib, m: nat,
                    k: nat, n: Name, r: Route)
    requires IsRunFrom(states, events, compute, rib0, fib0) && m < k <= |events| && RoutesOk(rib0)
    requires forall i :: 0 <= i < k ==> !Rejection(states[i], events[i])
    requires events[m].FaceRemoved? && NoneQueued(states[m], events[m].faceId)
    requires forall i :: m < i < k && events[i].Submit? ==> !RegistersOn(events[i].update, events[m].faceId)
    ensures !states[k].inProgress || |states[k].log| >= 2 * |states[m + 1].submitted| ==>
              n in states[k].rib && r in states[k].rib[n].routes ==> r.faceId != events[m].faceId
  {
    var s0, s1, s, f := states[m], states[m + 1], states[k], events[m].faceId;
    var i := |s0.log| / 2;
    RunServes(states, events, compute, rib0, fib0, m);
    RunServes(states, events, compute, rib0, fib0, k);
    RunGrows(states, events, compute, m, m + 1, i, f);
    RunGrows(states, events, compute, m + 1, k, i, f);
    if !s.inProgress || |s.log| >= 2 * |s1.submitted| {
      SameRibAfter(s0, s, rib0, i);
      RemovalsServed(s0, events[m], compute, s, f);
      AllRemoved(s, rib0, i, n, r, f);
    }
  }

  /**
   * Without failures the RIB at rest holds exactly the routes that the last update about their name, face and origin
   * registered, or that were there before if there was none.
   */
  lemma RoutesAtRest(states: seq<State>, events: seq<Event>, compute: Calculation, rib0: Table, fib0: Fib, k: nat,
                     n: Name, r: Route)
    requires IsRunFrom(states, events, compute, rib0, fib0) && k <= |events| && RoutesOk(rib0)
    requires (forall i :: 0 <= i < k ==> !Rejection(states[i], events[i])) && !states[k].inProgress
    ensures n in states[k].rib && r in states[k].rib[n].routes <==>
            LastUpdate(states[k].submitted, n, r.faceId, r.origin, RouteAt(rib0, n, r.faceId, r.origin)) == Some(r)
  {
    var s := states[k];
    var i := |s.submitted|;
    RunServes(states, events, compute, rib0, fib0, k);
    ServedRoutes(s, rib0, i, n, r.faceId, r.origin);
    ServedOk(s, rib0, i);
    assert s.submitted[..i] == s.submitted;
    if n in s.rib {
      RouteOfMeaning(s.rib[n].routes, r);
    }
  }
}
