/** Runs of the propagator: the prefixes follow the RIB, and when each assert of the handlers holds. */
module PropagationRuns {
  import opened Wrappers
  import opened Components
  import opened Names
  import opened Propagation

  // ----- the propagated prefixes -----

  /** The prefixes that the documentation promises. */
  function WantedKeys(ids: seq<Name>, rib: set<Name>): set<Name> {
    set n | n in rib && Propagatable(n) && Signable(ids, n) :: Key(ids, n)
  }

  /** No identity may register a prefix that covers a local name or the name of the hub. */
  ghost predicate Apart(ids: seq<Name>) {
    forall i, n :: i in ids && PrefixOf(i) <= n ==> Propagatable(n)
  }

  lemma WantedWith(ids: seq<Name>, rib: set<Name>, n: Name)
    requires Propagatable(n)
    ensures WantedKeys(ids, rib + {n}) == WantedKeys(ids, rib) + if Signable(ids, n) then {Key(ids, n)} else {}
  {
  }

  /** n was the last name that wanted its prefix, and a name that wants none keeps it. */
  predicate Lingers(ids: seq<Name>, rib: set<Name>, n: Name) {
    Signable(ids, n) && KeptFor(ids, rib, n) && Key(ids, n) !in WantedKeys(ids, rib)
  }

  lemma WantedMeansKept(ids: seq<Name>, rib: set<Name>, n: Name)
    requires Signable(ids, n) && Key(ids, n) in WantedKeys(ids, rib)
    ensures KeptFor(ids, rib, n)
  {
  }

  lemma EraseNameState(cfg: Config, s: State, rib: set<Name>, n: Name)
    requires AllWork(cfg.identities, s.entries) && (Signable(cfg.identities, n) ==> Key(cfg.identities, n) in s.entries)
    ensures var ids, s' := cfg.identities, EraseName(cfg, s, rib, n);
            s'.entries.Keys == s.entries.Keys - (if Signable(ids, n) && !KeptFor(ids, rib, n) then {Key(ids, n)}
                                                 else {}) &&
            AllWork(ids, s'.entries) && s'.hub == s.hub
  {
  }

  /** The prefix of an erased name goes exactly when it should, unless a local or hub name keeps it. */
  lemma EraseNameKeys(cfg: Config, s: State, rib: set<Name>, n: Name)
    requires s.entries.Keys == WantedKeys(cfg.identities, rib + {n}) && AllWork(cfg.identities, s.entries)
    requires Propagatable(n) && n !in rib
    ensures EraseName(cfg, s, rib, n).entries.Keys == WantedKeys(cfg.identities, rib) <==>
            !Lingers(cfg.identities, rib, n)
  {
    var ids := cfg.identities;
    WantedWith(ids, rib, n);
    EraseNameState(cfg, s, rib, n);
    if Signable(ids, n) && Key(ids, n) in WantedKeys(ids, rib) {
      WantedMeansKept(ids, rib, n);
    }
  }

  lemma ApartNeverLingers(ids: seq<Name>, rib: set<Name>, n: Name)
    requires Apart(ids)
    ensures !Lingers(ids, rib, n)
  {
  }

  // ----- runs -----

  /** answered holds the commands whose response came. */
  datatype System = System(state: State, rib: set<Name>, answered: multiset<Command>)

  function Initial(): System {
    System(State(map[], false, multiset{}), {}, multiset{})
  }

  predicate Enabled(y: System, e: Event) {
    match e
    case Inserted(n) => n !in y.rib
    case Erased(n) => n in y.rib
    case Succeeded(c) => c.Advertise? && y.answered[c] < y.state.sent[c]
    case Failed(c) => c.Advertise? && y.answered[c] < y.state.sent[c]
    case Revoked(c) => c.Withdraw? && y.answered[c] < y.state.sent[c]
    case RevokeFailed(c) => c.Withdraw? && y.answered[c] < y.state.sent[c]
    case Refresh(k) => k in y.state.entries && y.state.entries[k].timer.RefreshTimer?
    case Retry(k) => k in y.state.entries && y.state.entries[k].timer.RetryTimer?
  }

  function StateAfter(cfg: Config, y: System, e: Event): State
    requires Enabled(y, e)
  {
    var s := y.state;
    match e
    case Inserted(n) => WithInserted(cfg, s, n)
    case Erased(n) => WithErased(cfg, s, y.rib - {n}, n)
    case Succeeded(c) => WithSuccess(s, c.name, c.signer)
    case Failed(c) => WithFailure(cfg, s, c.name, c.signer, c.retryWait)
    case Revoked(c) => WithRevoked(s, c.name, c.signer, cfg.baseRetryWait)
    case RevokeFailed(c) => s
    case Refresh(k) => Redo(Fired(s, k), k, s.entries[k].timer.signer, cfg.baseRetryWait)
    case Retry(k) => Redo(Fired(s, k), k, s.entries[k].timer.signer, s.entries[k].timer.wait)
  }

  function Step(cfg: Config, y: System, e: Event): System
    requires Enabled(y, e)
  {
    System(StateAfter(cfg, y, e),
           match e
           case Inserted(n) => y.rib + {n}
           case Erased(n) => y.rib - {n}
           case _ => y.rib,
           if e.Succeeded? || e.Failed? || e.Revoked? || e.RevokeFailed? then y.answered + multiset{e.command}
           else y.answered)
  }

  ghost predicate Exact(cfg: Config, y: System) {
    y.state.entries.Keys == WantedKeys(cfg.identities, y.rib) && AllWork(cfg.identities, y.state.entries) &&
    (y.state.hub <==> LINK_LOCAL_NFD_PREFIX in y.rib)
  }

  /** A name that is not propagated wants no prefix. */
  lemma WantedIgnores(ids: seq<Name>, rib: set<Name>, n: Name)
    requires !Propagatable(n)
    ensures WantedKeys(ids, rib + {n}) == WantedKeys(ids, rib) == WantedKeys(ids, rib - {n})
  {
  }

  lemma InsertedExact(cfg: Config, y: System, n: Name)
    requires Exact(cfg, y) && n !in y.rib
    ensures Exact(cfg, Step(cfg, y, Inserted(n)))
  {
    HubIsNotLocal();
    if Propagatable(n) {
      WantedWith(cfg.identities, y.rib, n);
      InsertNameKeys(cfg, y.state, n);
    } else {
      WantedIgnores(cfg.identities, y.rib, n);
    }
  }

  lemma ErasedExact(cfg: Config, y: System, n: Name)
    requires Exact(cfg, y) && n in y.rib
    ensures Exact(cfg, Step(cfg, y, Erased(n))) <==> !(Propagatable(n) && Lingers(cfg.identities, y.rib - {n}, n))
  {
    HubIsNotLocal();
    if Propagatable(n) {
      assert y.rib - {n} + {n} == y.rib;
      WantedWith(cfg.identities, y.rib - {n}, n);
      EraseNameState(cfg, y.state, y.rib - {n}, n);
      EraseNameKeys(cfg, y.state, y.rib - {n}, n);
    } else {
      WantedIgnores(cfg.identities, y.rib, n);
    }
  }

  /** Command results and timers replace one entry at most, and it is not new then. */
  lemma ResultReplaces(cfg: Config, y: System, e: Event) returns (k: Name, x: PropagatedEntry)
    requires Enabled(y, e) && !e.Inserted? && !e.Erased?
    ensures var s, s' := y.state, Step(cfg, y, e).state;
            s'.hub == s.hub &&
            (s'.entries == s.entries ||
             (k in s.entries && s'.entries == s.entries[k := x] && x.status != New &&
              x.signingIdentity == s.entries[k].signingIdentity))
  {
    var s, s' := y.state, Step(cfg, y, e).state;
    k := if e.Refresh? || e.Retry? then e.key else e.command.name;
    x := if k in s'.entries then s'.entries[k] else PropagatedEntry(k, New, NoTimer);
    if k in s.entries && s'.entries != s.entries {
      assert s'.entries == s.entries[k := x];
    }
  }

  lemma ResultState(cfg: Config, y: System, e: Event)
    requires Enabled(y, e) && !e.Inserted? && !e.Erased?
    ensures var s, s' := y.state, Step(cfg, y, e).state;
            s'.entries.Keys == s.entries.Keys && s'.hub == s.hub &&
            forall k :: k in s.entries ==>
              s'.entries[k].signingIdentity == s.entries[k].signingIdentity &&
              (s'.entries[k].status == New ==> s.entries[k].status == New)
  {
    var k, x := ResultReplaces(cfg, y, e);
  }

  lemma ResultExact(cfg: Config, y: System, e: Event)
    requires Exact(cfg, y) && Enabled(y, e) && !e.Inserted? && !e.Erased?
    ensures Exact(cfg, Step(cfg, y, e))
  {
    ResultState(cfg, y, e);
  }

  /** Every event keeps the propagated prefixes exact, except an erasure after which one lingers. */
  lemma StepExact(cfg: Config, y: System, e: Event)
    requires Exact(cfg, y) && Enabled(y, e)
    ensures Exact(cfg, Step(cfg, y, e)) <==>
              !(e.Erased? && Propagatable(e.name) && Lingers(cfg.identities, y.rib - {e.name}, e.name))
  {
    match e
    case Inserted(n) => InsertedExact(cfg, y, n);
    case Erased(n) => ErasedExact(cfg, y, n);
    case _ => ResultExact(cfg, y, e);
  }

  ghost predicate IsRun(cfg: Config, ys: seq<System>, es: seq<Event>) {
    |ys| == |es| + 1 && forall i :: 0 <= i < |es| ==> Enabled(ys[i], es[i]) && ys[i + 1] == Step(cfg, ys[i], es[i])
  }

  /**
   * After any run of RIB signals, hub changes, command results and timers, a prefix is propagated if and only if it is
   * the choice for a signable name of the RIB that is neither below "/localhost" nor the hub's.
   */
  lemma {:induction false} RunExact(cfg: Config, ys: seq<System>, es: seq<Event>)
    requires IsRun(cfg, ys, es) && ys[0] == Initial() && Apart(cfg.identities)
    ensures Exact(cfg, ys[|es|])
    ensures forall k :: k in ys[|es|].state.entries <==>
              exists n :: n in ys[|es|].rib && !(LOCAL_REGISTRATION_PREFIX <= n) && n != LINK_LOCAL_NFD_PREFIX &&
                Signable(cfg.identities, n) && Key(cfg.identities, n) == k
    decreases |es|
  {
    var k := |es|;
    if k > 0 {
      RunExact(cfg, ys[..k], es[..k - 1]);
      if es[k - 1].Erased? {
        ApartNeverLingers(cfg.identities, ys[k - 1].rib - {es[k - 1].name}, es[k - 1].name);
      }
      StepExact(cfg, ys[k - 1], es[k - 1]);
    }
    WantedMeaning(cfg.identities, ys[k].rib);
  }

  lemma WantedMeaning(ids: seq<Name>, rib: set<Name>)
    ensures forall k :: k in WantedKeys(ids, rib) <==>
              exists n :: n in rib && !(LOCAL_REGISTRATION_PREFIX <= n) && n != LINK_LOCAL_NFD_PREFIX &&
                Signable(ids, n) && Key(ids, n) == k
  {
    forall k | k in WantedKeys(ids, rib)
      ensures exists n :: n in rib && !(LOCAL_REGISTRATION_PREFIX <= n) && n != LINK_LOCAL_NFD_PREFIX &&
                Signable(ids, n) && Key(ids, n) == k
    {
      var n :| n in rib && Propagatable(n) && Signable(ids, n) && Key(ids, n) == k;
    }
    forall n | n in rib && !(LOCAL_REGISTRATION_PREFIX <= n) && n != LINK_LOCAL_NFD_PREFIX && Signable(ids, n)
      ensures Key(ids, n) in WantedKeys(ids, rib)
    {
      assert Propagatable(n);
    }
  }

  // ----- the asserts -----

  /** A register command for the key was sent between the two states. */
  predicate RegisterSent(s: State, s': State, key: Name) {
    exists c :: c in s'.sent && c.Advertise? && c.name == key && s'.sent[c] > s.sent[c]
  }

  /** What came last for an entry since it was created or the hub was disconnected, if anything did. */
  datatype Mark =
    | Unmarked
    | Registering   // a register command was sent
    | Confirmed     // a register command succeeded
    | Refused       // a register command failed

  /** The mark of a key after k steps of a run, by the commands that were sent and the events that came. */
  function LastMark(ys: seq<System>, es: seq<Event>, k: nat, key: Name): Mark
    requires k <= |es| < |ys|
  {
    if k == 0 || key !in ys[k].state.entries then Unmarked
    else if RegisterSent(ys[k - 1].state, ys[k].state, key) then Registering
    else if es[k - 1] == Erased(LINK_LOCAL_NFD_PREFIX) then Unmarked
    else if es[k - 1].Succeeded? && es[k - 1].command.name == key then Confirmed
    else if es[k - 1].Failed? && es[k - 1].command.name == key then Refused
    else LastMark(ys, es, k - 1, key)
  }

  function StatusOf(m: Mark): Status {
    match m
    case Unmarked => New
    case Registering => Propagating
    case Confirmed => Propagated
    case Refused => PropagateFail
  }

  /** The status of an entry; one that is not there is new when it comes. */
  function StatusIn(s: State, key: Name): Status {
    if key in s.entries then s.entries[key].status else New
  }

  function StatusAfter(y: System, s': State, e: Event, key: Name): Status {
    if RegisterSent(y.state, s', key) then Propagating
    else if e == Erased(LINK_LOCAL_NFD_PREFIX) then New
    else if e.Succeeded? && e.command.name == key then Propagated
    else if e.Failed? && e.command.name == key then PropagateFail
    else StatusIn(y.state, key)
  }

  lemma SentOne(s: State, s': State, c: Command, key: Name)
    requires s'.sent == s.sent + multiset{c}
    ensures RegisterSent(s, s', key) <==> c.Advertise? && c.name == key
  {
    assert c in s'.sent && s'.sent[c] > s.sent[c];
  }

  lemma SentAll(cfg: Config, s: State, key: Name)
    ensures RegisterSent(s, HubConnect(cfg, s), key) <==> key in s.entries
  {
    var all := set k | k in s.entries :: Advertise(k, s.entries[k].signingIdentity, cfg.baseRetryWait);
    var s' := HubConnect(cfg, s);
    assert s'.sent == s.sent + multiset(all);
    if key in s.entries {
      var c := Advertise(key, s.entries[key].signingIdentity, cfg.baseRetryWait);
      assert c in all && c in s'.sent && s'.sent[c] > s.sent[c];
    }
  }

  lemma InsertedStatus(cfg: Config, y: System, n: Name, key: Name)
    requires Enabled(y, Inserted(n)) && key in Step(cfg, y, Inserted(n)).state.entries
    ensures var s' := Step(cfg, y, Inserted(n)).state;
            s'.entries[key].status == StatusAfter(y, s', Inserted(n), key)
  {
    var s, s' := y.state, Step(cfg, y, Inserted(n)).state;
    if n == LINK_LOCAL_NFD_PREFIX {
      HubIsNotLocal();
      SentAll(cfg, s, key);
    } else if s.hub && s' != s {
      var k, signer := Key(cfg.identities, n), Chosen(cfg.identities, n).value;
      SentOne(s, s', Advertise(k, signer, cfg.baseRetryWait), key);
    }
  }

  lemma ErasedStatus(cfg: Config, y: System, n: Name, key: Name)
    requires Enabled(y, Erased(n)) && key in Step(cfg, y, Erased(n)).state.entries
    ensures var s' := Step(cfg, y, Erased(n)).state;
            s'.entries[key].status == StatusAfter(y, s', Erased(n), key)
  {
    var s, s' := y.state, Step(cfg, y, Erased(n)).state;
    HubIsNotLocal();
    if s'.sent != s.sent {
      SentOne(s, s', Withdraw(Key(cfg.identities, n), Chosen(cfg.identities, n).value), key);
    }
  }

  lemma ResultStatus(cfg: Config, y: System, e: Event, key: Name)
    requires Enabled(y, e) && !e.Inserted? && !e.Erased? && key in Step(cfg, y, e).state.entries
    ensures var s' := Step(cfg, y, e).state; s'.entries[key].status == StatusAfter(y, s', e, key)
  {
    var s, s' := y.state, Step(cfg, y, e).state;
    match e
    case Succeeded(c) =>
      if c.name !in s.entries {
        SentOne(s, s', Withdraw(c.name, c.signer), key);
      }
    case Revoked(c) =>
      if s' != s {
        SentOne(s, s', Advertise(c.name, c.signer, cfg.baseRetryWait), key);
      }
    case Refresh(k) => SentOne(s, s', Advertise(k, s.entries[k].timer.signer, cfg.baseRetryWait), key);
    case Retry(k) => SentOne(s, s', Advertise(k, s.entries[k].timer.signer, s.entries[k].timer.wait), key);
    case _ =>
  }

  lemma StepStatus(cfg: Config, y: System, e: Event, key: Name)
    requires Enabled(y, e) && key in Step(cfg, y, e).state.entries
    ensures var s' := Step(cfg, y, e).state; s'.entries[key].status == StatusAfter(y, s', e, key)
  {
    match e
    case Inserted(n) => InsertedStatus(cfg, y, n, key);
    case Erased(n) => ErasedStatus(cfg, y, n, key);
    case _ => ResultStatus(cfg, y, e, key);
  }

  lemma NextMark(ys: seq<System>, es: seq<Event>, k: nat, key: Name)
    requires 0 < k <= |es| < |ys| && key in ys[k].state.entries
    requires StatusIn(ys[k - 1].state, key) == StatusOf(LastMark(ys, es, k - 1, key))
    ensures StatusOf(LastMark(ys, es, k, key)) == StatusAfter(ys[k - 1], ys[k].state, es[k - 1], key)
  {
  }

  /** On every run the status of an entry is what came for it since it was created or the hub was disconnected. */
  lemma {:induction false} RunStatus(cfg: Config, ys: seq<System>, es: seq<Event>, k: nat, key: Name)
    requires IsRun(cfg, ys, es) && ys[0] == Initial() && k <= |es|
    ensures StatusIn(ys[k].state, key) == StatusOf(LastMark(ys, es, k, key))
  {
    if k > 0 {
      RunStatus(cfg, ys, es, k - 1, key);
      if key in ys[k].state.entries {
        NextMark(ys, es, k, key);
        StepStatus(cfg, ys[k - 1], es[k - 1], key);
      }
    }
  }

  /** The hub is connected while its name is in the RIB, and no entry is new then. */
  predicate Engaged(y: System) {
    (y.state.hub <==> LINK_LOCAL_NFD_PREFIX in y.rib) && (y.state.hub ==> NoneNew(y.state.entries))
  }

  lemma StepEngaged(cfg: Config, y: System, e: Event)
    requires Enabled(y, e) && Engaged(y)
    ensures Engaged(Step(cfg, y, e))
  {
    HubIsNotLocal();
    match e
    case Inserted(n) =>
    case Erased(n) =>
    case _ => ResultState(cfg, y, e);
  }

  lemma {:induction false} RunEngaged(cfg: Config, ys: seq<System>, es: seq<Event>, k: nat)
    requires IsRun(cfg, ys, es) && ys[0] == Initial() && k <= |es|
    ensures Engaged(ys[k])
  {
    if k > 0 {
      RunEngaged(cfg, ys, es, k - 1);
      StepEngaged(cfg, ys[k - 1], es[k - 1]);
    }
  }

  /** When the assert of the k-th event is to hold, by what came before it. */
  predicate AsExpected(ys: seq<System>, es: seq<Event>, k: nat)
    requires k < |es| < |ys|
  {
    var entries := ys[k].state.entries;
    match es[k]
    case Inserted(n) =>
      n == LINK_LOCAL_NFD_PREFIX ==> forall key :: key in entries ==> LastMark(ys, es, k, key) == Unmarked
    case Erased(n) => true
    case Succeeded(c) => c.name in entries ==> LastMark(ys, es, k, c.name) == Registering
    case Failed(c) => c.name in entries ==> LastMark(ys, es, k, c.name) == Registering
    case Revoked(c) => c.name in entries ==> LastMark(ys, es, k, c.name) != Unmarked
    case RevokeFailed(c) => true
    case Refresh(key) => LastMark(ys, es, k, key) == Confirmed
    case Retry(key) => LastMark(ys, es, k, key) == Refused
  }

  /**
   * On every run: the assert of a response holds exactly if its entry is gone or a register command is waiting for one;
   * of a withdrawal, if its entry is gone or anything came since it was created or the hub left; of a timer, if its
   * response came last; of a connection, if nothing came for any entry; and of a disconnection always.
   */
  lemma RunAsserts(cfg: Config, ys: seq<System>, es: seq<Event>, k: nat)
    requires IsRun(cfg, ys, es) && ys[0] == Initial() && k < |es|
    ensures AssertHolds(ys[k].state, es[k]) <==> AsExpected(ys, es, k)
  {
    RunEngaged(cfg, ys, es, k);
    assert Enabled(ys[k], es[k]);
    forall key | key in ys[k].state.entries
      ensures ys[k].state.entries[key].status == StatusOf(LastMark(ys, es, k, key))
    {
      RunStatus(cfg, ys, es, k, key);
    }
  }

  // ----- which assert can be the first to fail -----

  predicate TimerFits(x: PropagatedEntry) {
    match x.timer
    case NoTimer => true
    case RefreshTimer(_) => x.status == Propagated || x.status == Propagating
    case RetryTimer(_, _) => x.status == PropagateFail
  }

  /** No assert failed so far: without a hub all entries are new, and each timer fits the status of its entry. */
  predicate Calm(y: System) {
    Engaged(y) && (!y.state.hub ==> AllNew(y.state.entries)) &&
    forall k :: k in y.state.entries ==> TimerFits(y.state.entries[k])
  }

  lemma InsertedCalm(cfg: Config, y: System, n: Name)
    requires n !in y.rib && Calm(y) && AssertHolds(y.state, Inserted(n))
    ensures Calm(Step(cfg, y, Inserted(n)))
  {
    HubIsNotLocal();
    StepEngaged(cfg, y, Inserted(n));
  }

  lemma ErasedCalm(cfg: Config, y: System, n: Name)
    requires n in y.rib && Calm(y)
    ensures Calm(Step(cfg, y, Erased(n)))
  {
    HubIsNotLocal();
    StepEngaged(cfg, y, Erased(n));
  }

  /** The entry that a result replaces has a timer that fits, unless the assert failed. */
  lemma ResultCalm(cfg: Config, y: System, e: Event)
    requires Enabled(y, e) && Calm(y) && AssertHolds(y.state, e) && !e.Inserted? && !e.Erased?
    ensures Calm(Step(cfg, y, e))
  {
    StepEngaged(cfg, y, e);
    var s, s' := y.state, Step(cfg, y, e).state;
    var k, x := ResultReplaces(cfg, y, e);
    if s'.entries != s.entries {
      assert k in s.entries && x == s'.entries[k] && TimerFits(s.entries[k]);
      assert TimerFits(x) && !AllNew(s.entries);
    }
  }

  lemma StepCalm(cfg: Config, y: System, e: Event)
    requires Enabled(y, e) && Calm(y) && AssertHolds(y.state, e)
    ensures Calm(Step(cfg, y, e))
  {
    match e
    case Inserted(n) => InsertedCalm(cfg, y, n);
    case Erased(n) => ErasedCalm(cfg, y, n);
    case _ => ResultCalm(cfg, y, e);
  }

  lemma {:induction false} RunCalm(cfg: Config, ys: seq<System>, es: seq<Event>, k: nat)
    requires IsRun(cfg, ys, es) && ys[0] == Initial() && k <= |es|
    requires forall i :: 0 <= i < k ==> AssertHolds(ys[i].state, es[i])
    ensures Calm(ys[k])
  {
    if k > 0 {
      RunCalm(cfg, ys, es, k - 1);
      StepCalm(cfg, ys[k - 1], es[k - 1]);
    }
  }

  /**
   * While every assert so far held, those of a connection, of a disconnection and of a retry hold; that of a withdrawal
   * fails exactly for an entry that is there while no hub is connected, and that of a refresh exactly if a withdrawal
   * started the propagation again since the entry was confirmed.
   */
  lemma FirstFailure(cfg: Config, ys: seq<System>, es: seq<Event>, k: nat)
    requires IsRun(cfg, ys, es) && ys[0] == Initial() && k < |es|
    requires forall i :: 0 <= i < k ==> AssertHolds(ys[i].state, es[i])
    ensures es[k].Inserted? || es[k].Erased? || es[k].Retry? ==> AssertHolds(ys[k].state, es[k])
    ensures es[k].Revoked? ==>
              (AssertHolds(ys[k].state, es[k]) <==> es[k].command.name in ys[k].state.entries ==> ys[k].state.hub)
    ensures es[k].Refresh? ==>
              (AssertHolds(ys[k].state, es[k]) <==> LastMark(ys, es, k, es[k].key) != Registering)
  {
    RunCalm(cfg, ys, es, k);
    assert Enabled(ys[k], es[k]);
    if es[k].Refresh? {
      RunStatus(cfg, ys, es, k, es[k].key);
    }
  }

  // ----- examples -----

  const SITE: Name := [Component(NAME_COMPONENT, [97])]

  /** The default identity "/localhop" covers the hub's name: a prefix wanted by "/localhop/a" only outlives it. */
  lemma LingersExample()
    ensures var hop := [LINK_LOCAL_NFD_PREFIX[0]];
            var ids, n := [hop], hop + SITE;
            Lingers(ids, {LINK_LOCAL_NFD_PREFIX}, n) && Propagatable(n) && !Apart(ids)
  {
    var hop := [LINK_LOCAL_NFD_PREFIX[0]];
    var ids, n := [hop], hop + SITE;
    assert hop <= LINK_LOCAL_NFD_PREFIX && hop <= n && PrefixOf(hop) == hop;
    assert Covers(ids[0], n) && Covers(ids[0], LINK_LOCAL_NFD_PREFIX);
    assert Best(ids, n, 0) == -1 && Best(ids, n, 1) == 0 && Best(ids, LINK_LOCAL_NFD_PREFIX, 0) == -1 &&
           Best(ids, LINK_LOCAL_NFD_PREFIX, 1) == 0;
    HubIsNotLocal();
    assert n[0] == hop[0] && n[1] != LINK_LOCAL_NFD_PREFIX[1];
    WantedIgnores(ids, {}, LINK_LOCAL_NFD_PREFIX);
    assert {} + {LINK_LOCAL_NFD_PREFIX} == {LINK_LOCAL_NFD_PREFIX};
    assert hop in ids && PrefixOf(hop) <= LINK_LOCAL_NFD_PREFIX;
  }

  /** "/a" comes before "/nrd" and is as short, so "/a" is propagated although "/nrd" could register "/". */
  lemma LongerPrefixExample()
    ensures var ids := [SITE, [IGNORE_COMPONENT]];
            Signable(ids, SITE) && Key(ids, SITE) == SITE && Covers(ids[1], SITE) && PrefixOf(ids[1]) == []
  {
    var ids := [SITE, [IGNORE_COMPONENT]];
    assert PrefixOf(SITE) == SITE && PrefixOf(ids[1]) == [];
    assert Best(ids, SITE, 0) == -1 && Best(ids, SITE, 1) == 0 && Best(ids, SITE, 2) == 0;
  }

  lemma SiteIsItsOwnKey(ids: seq<Name>)
    requires ids == [SITE]
    ensures Propagatable(SITE) && Signable(ids, SITE) && Key(ids, SITE) == SITE && Chosen(ids, SITE) == Some(SITE)
  {
    assert SITE[0] != LOCAL_REGISTRATION_PREFIX[0] && SITE[0] != LINK_LOCAL_NFD_PREFIX[0];
    assert PrefixOf(SITE) == SITE && Covers(ids[0], SITE);
    assert Best(ids, SITE, 0) == -1 && Best(ids, SITE, 1) == 0;
  }

  const EXAMPLE := Config([SITE], 1, 1)
  const REGISTER := Advertise(SITE, SITE, 1)
  const UNREGISTER := Withdraw(SITE, SITE)
  const HUB := LINK_LOCAL_NFD_PREFIX

  /** A run from the start whose handlers' asserts all hold. */
  ghost predicate HoldingRun(cfg: Config, ys: seq<System>, es: seq<Event>) {
    IsRun(cfg, ys, es) && ys[0] == Initial() && forall i :: 0 <= i < |es| ==> AssertHolds(ys[i].state, es[i])
  }

  /** A run from the start in which the assert of the last event is the first one that fails. */
  ghost predicate FailingRun(cfg: Config, ys: seq<System>, es: seq<Event>) {
    |es| > 0 && IsRun(cfg, ys, es) && ys[0] == Initial() &&
    (forall i :: 0 <= i < |es| - 1 ==> AssertHolds(ys[i].state, es[i])) &&
    !AssertHolds(ys[|es| - 1].state, es[|es| - 1])
  }

  lemma RunAppend(cfg: Config, ys: seq<System>, es: seq<Event>, e: Event)
    requires HoldingRun(cfg, ys, es) && Enabled(ys[|es|], e)
    ensures var ys', es' := ys + [Step(cfg, ys[|es|], e)], es + [e];
            if AssertHolds(ys[|es|].state, e) then HoldingRun(cfg, ys', es') else FailingRun(cfg, ys', es')
  {
    var ys', es' := ys + [Step(cfg, ys[|es|], e)], es + [e];
    forall i | 0 <= i < |es'|
      ensures Enabled(ys'[i], es'[i]) && ys'[i + 1] == Step(cfg, ys'[i], es'[i])
    {
      if i < |es| {
        assert ys'[i] == ys[i] && ys'[i + 1] == ys[i + 1] && es'[i] == es[i];
      }
    }
  }

  /** One more event whose assert holds leads to y. */
  lemma AndThen(ys: seq<System>, es: seq<Event>, e: Event, y: System) returns (ys': seq<System>)
    requires HoldingRun(EXAMPLE, ys, es) && Enabled(ys[|es|], e) && AssertHolds(ys[|es|].state, e)
    requires Step(EXAMPLE, ys[|es|], e) == y
    ensures HoldingRun(EXAMPLE, ys', es + [e]) && ys'[|es| + 1] == y
  {
    RunAppend(EXAMPLE, ys, es, e);
    ys' := ys + [y];
  }

  function OnlySite(status: Status, timer: Timer): map<Name, PropagatedEntry> {
    map[SITE := PropagatedEntry(SITE, status, timer)]
  }

  lemma HubComes()
    ensures Enabled(Initial(), Inserted(HUB)) && AssertHolds(Initial().state, Inserted(HUB))
    ensures Step(EXAMPLE, Initial(), Inserted(HUB)) == System(State(map[], true, multiset{}), {HUB}, multiset{})
  {
    HubIsNotLocal();
    assert {} + {HUB} == {HUB};
    assert HubConnect(EXAMPLE, Initial().state) == State(map[], true, multiset{});
  }

  /** "/a" becomes a name of the RIB. */
  lemma SiteComes(hub: bool, sent: multiset<Command>, rib: set<Name>, answered: multiset<Command>)
    requires SITE !in rib
    ensures var y := System(State(map[], hub, sent), rib, answered);
            Enabled(y, Inserted(SITE)) && AssertHolds(y.state, Inserted(SITE)) &&
            Step(EXAMPLE, y, Inserted(SITE)) ==
            System(State(OnlySite(if hub then Propagating else New, NoTimer), hub,
                         if hub then sent + multiset{REGISTER} else sent), rib + {SITE}, answered)
  {
    SiteIsItsOwnKey(EXAMPLE.identities);
  }

  /** Its registration succeeds. */
  lemma SiteConfirmed(sent: multiset<Command>, rib: set<Name>, answered: multiset<Command>)
    requires answered[REGISTER] < sent[REGISTER]
    ensures var y := System(State(OnlySite(Propagating, NoTimer), true, sent), rib, answered);
            Enabled(y, Succeeded(REGISTER)) && AssertHolds(y.state, Succeeded(REGISTER)) &&
            Step(EXAMPLE, y, Succeeded(REGISTER)) ==
            System(State(OnlySite(Propagated, RefreshTimer(SITE)), true, sent), rib, answered + multiset{REGISTER})
  {
  }

  /** "/a" leaves the RIB. */
  lemma SiteGoes(x: PropagatedEntry, sent: multiset<Command>, answered: multiset<Command>)
    ensures var y := System(State(map[SITE := x], true, sent), {HUB, SITE}, answered);
            Enabled(y, Erased(SITE)) && AssertHolds(y.state, Erased(SITE)) &&
            Step(EXAMPLE, y, Erased(SITE)) ==
            System(State(map[], true, if x.status == Propagated then sent + multiset{UNREGISTER} else sent), {HUB},
                   answered)
  {
    SiteIsItsOwnKey(EXAMPLE.identities);
    assert {HUB, SITE} - {SITE} == {HUB} && !(SITE <= HUB);
    assert !KeptFor(EXAMPLE.identities, {HUB}, SITE);
    assert map[SITE := x] - {SITE} == map[];
  }

  lemma HubGoes(entries: map<Name, PropagatedEntry>, sent: multiset<Command>, rib: set<Name>,
                answered: multiset<Command>)
    requires HUB in rib && NoneNew(entries)
    ensures var y := System(State(entries, true, sent), rib, answered);
            Enabled(y, Erased(HUB)) && AssertHolds(y.state, Erased(HUB)) &&
            Step(EXAMPLE, y, Erased(HUB)) ==
            System(State(map k | k in entries :: entries[k].(status := New, timer := NoTimer), false, sent),
                   rib - {HUB}, answered)
  {
    HubIsNotLocal();
  }

  const ARRIVAL := [Inserted(HUB), Inserted(SITE)]

  lemma Started() returns (ys: seq<System>)
    ensures HoldingRun(EXAMPLE, ys, ARRIVAL)
    ensures ys[2] == System(State(OnlySite(Propagating, NoTimer), true, multiset{REGISTER}), {HUB, SITE}, multiset{})
  {
    HubComes();
    ys := AndThen([Initial()], [], Inserted(HUB), System(State(map[], true, multiset{}), {HUB}, multiset{}));
    SiteComes(true, multiset{}, {HUB}, multiset{});
    assert {HUB} + {SITE} == {HUB, SITE} && [] + [Inserted(HUB)] == [Inserted(HUB)];
    assert multiset{} + multiset{REGISTER} == multiset{REGISTER};
    assert [Inserted(HUB)] + [Inserted(SITE)] == ARRIVAL;
    ys := AndThen(ys, [Inserted(HUB)], Inserted(SITE),
                  System(State(OnlySite(Propagating, NoTimer), true, multiset{REGISTER}), {HUB, SITE}, multiset{}));
  }

  /** A response that arrives after the hub was disconnected finds its entry new. */
  lemma LateResponseExample() returns (ys: seq<System>)
    ensures FailingRun(EXAMPLE, ys, ARRIVAL + [Erased(HUB)] + [Succeeded(REGISTER)])
  {
    ys := Started();
    var es := ARRIVAL;
    HubGoes(OnlySite(Propagating, NoTimer), multiset{REGISTER}, {HUB, SITE}, multiset{});
    var y := Step(EXAMPLE, ys[2], Erased(HUB));
    ys := AndThen(ys, es, Erased(HUB), y);
    es := es + [Erased(HUB)];
    assert y.state.entries[SITE].status == New;
    RunAppend(EXAMPLE, ys, es, Succeeded(REGISTER));
    ys := ys + [Step(EXAMPLE, y, Succeeded(REGISTER))];
  }

  /** With the hub connected throughout: a name that goes and comes back has two commands under way. */
  lemma TwoResponsesExample() returns (ys: seq<System>)
    ensures FailingRun(EXAMPLE, ys, ARRIVAL + [Erased(SITE)] + [Inserted(SITE)] + [Succeeded(REGISTER)] +
                                    [Succeeded(REGISTER)])
  {
    ys := Started();
    var es, one := ARRIVAL, multiset{REGISTER};
    SiteGoes(PropagatedEntry(SITE, Propagating, NoTimer), one, multiset{});
    ys := AndThen(ys, es, Erased(SITE), System(State(map[], true, one), {HUB}, multiset{}));
    es := es + [Erased(SITE)];
    SiteComes(true, one, {HUB}, multiset{});
    var y := Step(EXAMPLE, ys[3], Inserted(SITE));
    ys := AndThen(ys, es, Inserted(SITE), y);
    es := es + [Inserted(SITE)];
    SiteConfirmed(one + multiset{REGISTER}, y.rib, multiset{});
    y := Step(EXAMPLE, y, Succeeded(REGISTER));
    ys := AndThen(ys, es, Succeeded(REGISTER), y);
    es := es + [Succeeded(REGISTER)];
    assert y.answered[REGISTER] == 1 && y.state.sent[REGISTER] == 2;
    RunAppend(EXAMPLE, ys, es, Succeeded(REGISTER));
    ys := ys + [Step(EXAMPLE, y, Succeeded(REGISTER))];
  }

  const DEPARTURE := ARRIVAL + [Succeeded(REGISTER)] + [Erased(SITE)]

  /** The name was confirmed and went, so a withdrawal is under way. */
  lemma Withdrawn() returns (ys: seq<System>)
    ensures HoldingRun(EXAMPLE, ys, DEPARTURE)
    ensures ys[4] == System(State(map[], true, multiset{REGISTER, UNREGISTER}), {HUB}, multiset{REGISTER})
  {
    ys := Started();
    var es := ARRIVAL;
    SiteConfirmed(multiset{REGISTER}, {HUB, SITE}, multiset{});
    var y := Step(EXAMPLE, ys[2], Succeeded(REGISTER));
    ys := AndThen(ys, es, Succeeded(REGISTER), y);
    es := es + [Succeeded(REGISTER)];
    SiteGoes(PropagatedEntry(SITE, Propagated, RefreshTimer(SITE)), multiset{REGISTER}, y.answered);
    assert multiset{REGISTER} + multiset{UNREGISTER} == multiset{REGISTER, UNREGISTER};
    assert multiset{} + multiset{REGISTER} == multiset{REGISTER};
    ys := AndThen(ys, es, Erased(SITE), Step(EXAMPLE, y, Erased(SITE)));
  }

  /** A withdrawal whose response comes after the hub was disconnected and the name came back. */
  lemma LateWithdrawalExample() returns (ys: seq<System>)
    ensures FailingRun(EXAMPLE, ys, DEPARTURE + [Erased(HUB)] + [Inserted(SITE)] + [Revoked(UNREGISTER)])
  {
    ys := Withdrawn();
    var es, sent := DEPARTURE, multiset{REGISTER, UNREGISTER};
    HubGoes(map[], sent, {HUB}, multiset{REGISTER});
    var y := Step(EXAMPLE, ys[4], Erased(HUB));
    assert y.state.entries == map[];
    ys := AndThen(ys, es, Erased(HUB), y);
    es := es + [Erased(HUB)];
    SiteComes(false, sent, y.rib, y.answered);
    y := Step(EXAMPLE, y, Inserted(SITE));
    ys := AndThen(ys, es, Inserted(SITE), y);
    es := es + [Inserted(SITE)];
    assert y.answered[UNREGISTER] == 0 && y.state.sent[UNREGISTER] == 1;
    RunAppend(EXAMPLE, ys, es, Revoked(UNREGISTER));
    ys := ys + [Step(EXAMPLE, y, Revoked(UNREGISTER))];
  }

  /** A withdrawal whose response comes after the name came back and was confirmed: the refresh timer stays set. */
  lemma RefreshExample() returns (ys: seq<System>)
    ensures FailingRun(EXAMPLE, ys, DEPARTURE + [Inserted(SITE)] + [Succeeded(REGISTER)] + [Revoked(UNREGISTER)] +
                                    [Refresh(SITE)])
  {
    ys := Withdrawn();
    var es, sent := DEPARTURE, multiset{REGISTER, UNREGISTER};
    SiteComes(true, sent, {HUB}, multiset{REGISTER});
    var y := Step(EXAMPLE, ys[4], Inserted(SITE));
    ys := AndThen(ys, es, Inserted(SITE), y);
    es := es + [Inserted(SITE)];
    SiteConfirmed(sent + multiset{REGISTER}, y.rib, multiset{REGISTER});
    y := Step(EXAMPLE, y, Succeeded(REGISTER));
    ys := AndThen(ys, es, Succeeded(REGISTER), y);
    es := es + [Succeeded(REGISTER)];
    assert y.answered[UNREGISTER] == 0 && y.state.sent[UNREGISTER] == 1;
    y := Step(EXAMPLE, y, Revoked(UNREGISTER));
    ys := AndThen(ys, es, Revoked(UNREGISTER), y);
    es := es + [Revoked(UNREGISTER)];
    assert y.state.entries[SITE] == PropagatedEntry(SITE, Propagating, RefreshTimer(SITE));
    RunAppend(EXAMPLE, ys, es, Refresh(SITE));
    ys := ys + [Step(EXAMPLE, y, Refresh(SITE))];
  }
}
