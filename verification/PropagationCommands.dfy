/** Which commands the propagator sends to the hub on a run, and what its timers hold (auto-prefix-propagator.cpp). */
module PropagationCommands {
  import opened Wrappers
  import opened Components
  import opened Names
  import opened Propagation
  import opened PropagationRuns
  import UriForms

  // ----- signers -----

  function SignerOf(timer: Timer): Option<Name> {
    match timer
    case NoTimer => None
    case RefreshTimer(signer) => Some(signer)
    case RetryTimer(signer, _) => Some(signer)
  }

  predicate EntrySigned(ids: seq<Name>, k: Name, x: PropagatedEntry) {
    Works(ids, k) && Chosen(ids, k) == Some(x.signingIdentity) &&
    (SignerOf(x.timer).Some? ==> SignerOf(x.timer) == Some(x.signingIdentity))
  }

  predicate CommandSigned(ids: seq<Name>, c: Command) {
    Chosen(ids, c.name) == Some(c.signer)
  }

  /** Entries, timers and commands carry the identity that is chosen for their prefix. */
  ghost predicate Signed(ids: seq<Name>, s: State) {
    (forall k :: k in s.entries ==> EntrySigned(ids, k, s.entries[k])) &&
    forall c :: c in s.sent ==> CommandSigned(ids, c)
  }

  lemma SignedWorks(ids: seq<Name>, s: State)
    requires Signed(ids, s)
    ensures AllWork(ids, s.entries)
  {
    forall k | k in s.entries
      ensures Works(ids, k) && Chosen(ids, k) == Some(s.entries[k].signingIdentity)
    {
      assert EntrySigned(ids, k, s.entries[k]);
    }
  }

  lemma EntrySet(ids: seq<Name>, s: State, k: Name, x: PropagatedEntry)
    requires Signed(ids, s) && EntrySigned(ids, k, x)
    ensures Signed(ids, s.(entries := s.entries[k := x]))
  {
  }

  lemma CommandSent(ids: seq<Name>, s: State, c: Command)
    requires Signed(ids, s) && CommandSigned(ids, c)
    ensures Signed(ids, Send(s, c))
  {
  }

  lemma EntryGone(ids: seq<Name>, s: State, k: Name)
    requires Signed(ids, s)
    ensures Signed(ids, s.(entries := s.entries - {k}))
  {
  }

  /** The entry of a signable name. */
  lemma KeySigned(ids: seq<Name>, n: Name, status: Status)
    requires Signable(ids, n)
    ensures EntrySigned(ids, Key(ids, n), PropagatedEntry(Chosen(ids, n).value, status, NoTimer))
  {
    KeyIdempotent(ids, n);
  }

  lemma InsertSigned(cfg: Config, s: State, n: Name)
    requires Signed(cfg.identities, s)
    ensures Signed(cfg.identities, InsertName(cfg, s, n))
  {
    var ids := cfg.identities;
    if Signable(ids, n) && Key(ids, n) !in s.entries {
      var k, signer := Key(ids, n), Chosen(ids, n).value;
      KeySigned(ids, n, New);
      KeySigned(ids, n, Propagating);
      EntrySet(ids, s, k, PropagatedEntry(signer, New, NoTimer));
      var s1 := s.(entries := s.entries[k := PropagatedEntry(signer, New, NoTimer)]);
      EntrySet(ids, s1, k, PropagatedEntry(signer, Propagating, NoTimer));
      CommandSent(ids, Restarted(s1, k), Advertise(k, signer, cfg.baseRetryWait));
    }
  }

  lemma EraseSigned(cfg: Config, s: State, rib: set<Name>, n: Name)
    requires Signed(cfg.identities, s)
    ensures Signed(cfg.identities, EraseName(cfg, s, rib, n))
  {
    var ids := cfg.identities;
    if Signable(ids, n) {
      var k, signer := Key(ids, n), Chosen(ids, n).value;
      KeySigned(ids, n, New);
      EntryGone(ids, s, k);
      CommandSent(ids, s.(entries := s.entries - {k}), Withdraw(k, signer));
    }
  }

  lemma ConnectSigned(cfg: Config, s: State)
    requires Signed(cfg.identities, s)
    ensures Signed(cfg.identities, HubConnect(cfg, s)) && Signed(cfg.identities, HubDisconnect(s))
  {
    forall k | k in s.entries
      ensures EntrySigned(cfg.identities, k, s.entries[k])
    {
    }
  }

  /** An entry is replaced by one of the same signer, after which a command of that signer may be sent. */
  lemma ResultSigned(cfg: Config, y: System, e: Event)
    requires Enabled(y, e) && !e.Inserted? && !e.Erased? && Signed(cfg.identities, y.state)
    ensures Signed(cfg.identities, Step(cfg, y, e).state)
  {
    var ids, s := cfg.identities, y.state;
    match e
    case Succeeded(c) => SuccessSigned(ids, s, c);
    case Failed(c) => FailureSigned(cfg, s, c);
    case Revoked(c) => RevokedSigned(ids, s, c, cfg.baseRetryWait);
    case RevokeFailed(c) =>
    case Refresh(k) => RedoSigned(ids, s, k, cfg.baseRetryWait);
    case Retry(k) => RedoSigned(ids, s, k, s.entries[k].timer.wait);
  }

  lemma SuccessSigned(ids: seq<Name>, s: State, c: Command)
    requires Signed(ids, s) && c in s.sent
    ensures Signed(ids, WithSuccess(s, c.name, c.signer))
  {
    assert CommandSigned(ids, c);
    if c.name in s.entries {
      assert EntrySigned(ids, c.name, s.entries[c.name]);
      EntrySet(ids, s, c.name, s.entries[c.name].(status := Propagated, timer := RefreshTimer(c.signer)));
    } else {
      CommandSent(ids, s, Withdraw(c.name, c.signer));
    }
  }

  lemma FailureSigned(cfg: Config, s: State, c: Command)
    requires Signed(cfg.identities, s) && c in s.sent && c.Advertise?
    ensures Signed(cfg.identities, WithFailure(cfg, s, c.name, c.signer, c.retryWait))
  {
    var ids := cfg.identities;
    assert CommandSigned(ids, c);
    if c.name in s.entries {
      assert EntrySigned(ids, c.name, s.entries[c.name]);
      var timer := RetryTimer(c.signer, NextWait(cfg, c.retryWait));
      EntrySet(ids, s, c.name, s.entries[c.name].(status := PropagateFail, timer := timer));
    }
  }

  lemma RevokedSigned(ids: seq<Name>, s: State, c: Command, wait: nat)
    requires Signed(ids, s) && c in s.sent
    ensures Signed(ids, WithRevoked(s, c.name, c.signer, wait))
  {
    assert CommandSigned(ids, c);
    if c.name in s.entries {
      assert EntrySigned(ids, c.name, s.entries[c.name]);
      EntrySet(ids, s, c.name, s.entries[c.name].(status := Propagating));
      CommandSent(ids, Restarted(s, c.name), Advertise(c.name, c.signer, wait));
    }
  }

  lemma RedoSigned(ids: seq<Name>, s: State, k: Name, wait: nat)
    requires Signed(ids, s) && k in s.entries && SignerOf(s.entries[k].timer).Some?
    ensures Signed(ids, Redo(Fired(s, k), k, SignerOf(s.entries[k].timer).value, wait))
  {
    assert EntrySigned(ids, k, s.entries[k]);
    EntrySet(ids, s, k, s.entries[k].(timer := NoTimer));
    EntrySet(ids, Fired(s, k), k, Fired(s, k).entries[k].(status := Propagating));
    CommandSent(ids, Restarted(Fired(s, k), k), Advertise(k, SignerOf(s.entries[k].timer).value, wait));
  }

  lemma InsertedSigned(cfg: Config, s: State, n: Name)
    requires Signed(cfg.identities, s)
    ensures Signed(cfg.identities, WithInserted(cfg, s, n))
  {
    ConnectSigned(cfg, s);
    InsertSigned(cfg, s, n);
  }

  lemma ErasedSigned(cfg: Config, s: State, rib: set<Name>, n: Name)
    requires Signed(cfg.identities, s)
    ensures Signed(cfg.identities, WithErased(cfg, s, rib, n))
  {
    ConnectSigned(cfg, s);
    EraseSigned(cfg, s, rib, n);
  }

  lemma StepSigned(cfg: Config, y: System, e: Event)
    requires Enabled(y, e) && Signed(cfg.identities, y.state)
    ensures Signed(cfg.identities, Step(cfg, y, e).state)
  {
    match e
    case Inserted(n) => InsertedSigned(cfg, y.state, n);
    case Erased(n) => ErasedSigned(cfg, y.state, y.rib - {n}, n);
    case _ => ResultSigned(cfg, y, e);
  }

  lemma {:induction false} RunSigned(cfg: Config, ys: seq<System>, es: seq<Event>, k: nat)
    requires IsRun(cfg, ys, es) && ys[0] == Initial() && k <= |es|
    ensures Signed(cfg.identities, ys[k].state)
  {
    if k > 0 {
      RunSigned(cfg, ys, es, k - 1);
      StepSigned(cfg, ys[k - 1], es[k - 1]);
    }
  }

  // ----- timers -----

  function Min(a: nat, b: nat): nat {
    if a < b then a else b
  }

  /** The timer of an entry after an event, if it was there before. */
  function TimerAfter(cfg: Config, e: Event, key: Name, timer: Timer): Timer {
    if e == Erased(LINK_LOCAL_NFD_PREFIX) then NoTimer
    else if e.Succeeded? && e.command.name == key then RefreshTimer(e.command.signer)
    else if e.Failed? && e.command.Advertise? && e.command.name == key then
      RetryTimer(e.command.signer, Min(2 * e.command.retryWait, cfg.maxRetryWait))
    else if (e.Refresh? || e.Retry?) && e.key == key then NoTimer
    else timer
  }

  /** The timer of an entry, by the events: a success sets a refresh, a failure a retry after twice the wait. */
  function LastTimer(cfg: Config, ys: seq<System>, es: seq<Event>, k: nat, key: Name): Timer
    requires k <= |es| < |ys|
  {
    if k == 0 || key !in ys[k - 1].state.entries then NoTimer
    else TimerAfter(cfg, es[k - 1], key, LastTimer(cfg, ys, es, k - 1, key))
  }

  lemma InsertTimer(cfg: Config, s: State, n: Name, key: Name)
    requires key in WithInserted(cfg, s, n).entries
    ensures WithInserted(cfg, s, n).entries[key].timer == if key in s.entries then s.entries[key].timer else NoTimer
  {
    HubIsNotLocal();
  }

  lemma EraseTimer(cfg: Config, s: State, rib: set<Name>, n: Name, key: Name)
    requires key in WithErased(cfg, s, rib, n).entries
    ensures key in s.entries
    ensures WithErased(cfg, s, rib, n).entries[key].timer ==
            if n == LINK_LOCAL_NFD_PREFIX then NoTimer else s.entries[key].timer
  {
    HubIsNotLocal();
  }

  lemma RedoTimer(s: State, k: Name, signer: Name, wait: nat, key: Name)
    requires k in s.entries && key in s.entries
    ensures var after := Redo(Fired(s, k), k, signer, wait).entries;
            key in after && after.Keys == s.entries.Keys &&
            after[key].timer == if key == k then NoTimer else s.entries[key].timer
  {
  }

  lemma ResultTimer(cfg: Config, y: System, e: Event, key: Name)
    requires Enabled(y, e) && !e.Inserted? && !e.Erased? && key in Step(cfg, y, e).state.entries
    ensures key in y.state.entries
    ensures Step(cfg, y, e).state.entries[key].timer == TimerAfter(cfg, e, key, y.state.entries[key].timer)
  {
    ResultState(cfg, y, e);
    var s := y.state;
    match e
    case Refresh(k) => RedoTimer(s, k, s.entries[k].timer.signer, cfg.baseRetryWait, key);
    case Retry(k) => RedoTimer(s, k, s.entries[k].timer.signer, s.entries[k].timer.wait, key);
    case _ =>
  }

  lemma StepTimer(cfg: Config, y: System, e: Event, key: Name)
    requires Enabled(y, e) && key in Step(cfg, y, e).state.entries
    ensures Step(cfg, y, e).state.entries[key].timer ==
            if key in y.state.entries then TimerAfter(cfg, e, key, y.state.entries[key].timer) else NoTimer
  {
    match e
    case Inserted(n) => InsertTimer(cfg, y.state, n, key);
    case Erased(n) => EraseTimer(cfg, y.state, y.rib - {n}, n, key);
    case _ => ResultTimer(cfg, y, e, key);
  }

  predicate TimerSet(cfg: Config, ys: seq<System>, es: seq<Event>, k: nat, key: Name)
    requires k <= |es| < |ys|
  {
    var entries := ys[k].state.entries;
    key in entries ==> entries[key].timer == LastTimer(cfg, ys, es, k, key)
  }

  lemma NextTimer(cfg: Config, ys: seq<System>, es: seq<Event>, i: nat, key: Name)
    requires i < |es| < |ys| && Enabled(ys[i], es[i]) && ys[i + 1] == Step(cfg, ys[i], es[i])
    requires TimerSet(cfg, ys, es, i, key)
    ensures TimerSet(cfg, ys, es, i + 1, key)
  {
    if key in ys[i + 1].state.entries {
      StepTimer(cfg, ys[i], es[i], key);
    }
  }

  /** On every run each entry has the timer that the last event about it set. */
  lemma {:induction false} RunTimer(cfg: Config, ys: seq<System>, es: seq<Event>, k: nat, key: Name)
    requires IsRun(cfg, ys, es) && ys[0] == Initial() && k <= |es|
    ensures TimerSet(cfg, ys, es, k, key)
  {
    if k > 0 {
      RunTimer(cfg, ys, es, k - 1, key);
      NextTimer(cfg, ys, es, k - 1, key);
    }
  }

  // ----- commands -----

  /**
   * The i-th event is to send the command. A withdrawal: for an entry that goes while the hub is connected and its last
   * response was a success, or for a success that finds no entry. A registration: for a new entry while the hub is
   * connected, for every entry when the hub comes, for an entry that did not fail when a withdrawal of it succeeds, and
   * when a timer fires.
   */
  predicate Due(cfg: Config, ys: seq<System>, es: seq<Event>, i: nat, c: Command)
    requires i < |es| < |ys|
  {
    var key, hub := c.name, ys[i].state.hub;
    var had, has := key in ys[i].state.entries, key in ys[i + 1].state.entries;
    Chosen(cfg.identities, key) == Some(c.signer) &&
    match es[i]
    case Inserted(n) =>
      c.Advertise? && c.retryWait == cfg.baseRetryWait &&
      if n == LINK_LOCAL_NFD_PREFIX then had else hub && !had && has
    case Erased(n) => c.Withdraw? && hub && had && !has && LastMark(ys, es, i, key) == Confirmed
    case Succeeded(d) => c.Withdraw? && d.name == key && !had
    case Revoked(d) =>
      c.Advertise? && c.retryWait == cfg.baseRetryWait && d.name == key && had && LastMark(ys, es, i, key) != Refused
    case Refresh(k) => c.Advertise? && c.retryWait == cfg.baseRetryWait && k == key
    case Retry(k) => c.Advertise? && k == key && LastTimer(cfg, ys, es, i, key) == RetryTimer(c.signer, c.retryWait)
    case _ => false
  }

  function Sends(cfg: Config, ys: seq<System>, es: seq<Event>, k: nat, c: Command): nat
    requires k <= |es| < |ys|
  {
    if k == 0 then 0 else Sends(cfg, ys, es, k - 1, c) + if Due(cfg, ys, es, k - 1, c) then 1 else 0
  }

  lemma HubSends(cfg: Config, s: State, c: Command)
    requires AllWork(cfg.identities, s.entries)
    ensures HubConnect(cfg, s).sent[c] ==
            s.sent[c] + if c.Advertise? && c.name in s.entries && c.retryWait == cfg.baseRetryWait &&
                           Chosen(cfg.identities, c.name) == Some(c.signer) then 1 else 0
  {
    var all := set k | k in s.entries :: Advertise(k, s.entries[k].signingIdentity, cfg.baseRetryWait);
    assert HubConnect(cfg, s).sent == s.sent + multiset(all);
    assert c in all <==> c.Advertise? && c.name in s.entries &&
                         c == Advertise(c.name, s.entries[c.name].signingIdentity, cfg.baseRetryWait);
  }

  lemma InsertSends(cfg: Config, s: State, n: Name, c: Command)
    ensures var s' := InsertName(cfg, s, n);
            s'.sent[c] == s.sent[c] +
                          if s.hub && c.Advertise? && c.retryWait == cfg.baseRetryWait && c.name !in s.entries &&
                             c.name in s'.entries && Chosen(cfg.identities, c.name) == Some(c.signer) then 1 else 0
  {
    if Signable(cfg.identities, n) {
      KeyIdempotent(cfg.identities, n);
    }
  }

  lemma EraseSends(cfg: Config, s: State, rib: set<Name>, n: Name, c: Command)
    ensures var s' := EraseName(cfg, s, rib, n);
            s'.sent[c] == s.sent[c] +
                          if s.hub && c.Withdraw? && c.name in s.entries && c.name !in s'.entries &&
                             s.entries[c.name].status == Propagated &&
                             Chosen(cfg.identities, c.name) == Some(c.signer) then 1 else 0
  {
    if Signable(cfg.identities, n) {
      KeyIdempotent(cfg.identities, n);
    }
  }

  lemma InsertedSends(cfg: Config, ys: seq<System>, es: seq<Event>, i: nat, c: Command)
    requires IsRun(cfg, ys, es) && i < |es| && es[i].Inserted? && Signed(cfg.identities, ys[i].state)
    ensures ys[i + 1].state.sent[c] == ys[i].state.sent[c] + if Due(cfg, ys, es, i, c) then 1 else 0
  {
    var s, n := ys[i].state, es[i].name;
    assert ys[i + 1] == Step(cfg, ys[i], es[i]);
    HubIsNotLocal();
    SignedWorks(cfg.identities, s);
    HubSends(cfg, s, c);
    InsertSends(cfg, s, n, c);
  }

  lemma ErasedSends(cfg: Config, ys: seq<System>, es: seq<Event>, i: nat, c: Command)
    requires IsRun(cfg, ys, es) && ys[0] == Initial() && i < |es| && es[i].Erased?
    ensures ys[i + 1].state.sent[c] == ys[i].state.sent[c] + if Due(cfg, ys, es, i, c) then 1 else 0
  {
    var s, n := ys[i].state, es[i].name;
    assert ys[i + 1] == Step(cfg, ys[i], es[i]);
    HubIsNotLocal();
    RunStatus(cfg, ys, es, i, c.name);
    EraseSends(cfg, s, ys[i].rib - {n}, n, c);
  }

  /** The command, if any, that a response or timer is to send. */
  function Answer(cfg: Config, s: State, e: Event): Option<Command> {
    match e
    case Succeeded(d) => if d.name in s.entries then None else Some(Withdraw(d.name, d.signer))
    case Revoked(d) =>
      if d.name in s.entries && s.entries[d.name].status != PropagateFail then
        Some(Advertise(d.name, d.signer, cfg.baseRetryWait))
      else None
    case Refresh(k) =>
      if k in s.entries && s.entries[k].timer.RefreshTimer? then
        Some(Advertise(k, s.entries[k].timer.signer, cfg.baseRetryWait))
      else None
    case Retry(k) =>
      if k in s.entries && s.entries[k].timer.RetryTimer? then
        Some(Advertise(k, s.entries[k].timer.signer, s.entries[k].timer.wait))
      else None
    case _ => None
  }

  lemma ResultAnswer(cfg: Config, y: System, e: Event)
    requires Enabled(y, e) && !e.Inserted? && !e.Erased?
    ensures var answer := Answer(cfg, y.state, e);
            Step(cfg, y, e).state.sent ==
            y.state.sent + if answer.Some? then multiset{answer.value} else multiset{}
  {
  }

  lemma ResponseDue(cfg: Config, ys: seq<System>, es: seq<Event>, i: nat, c: Command)
    requires IsRun(cfg, ys, es) && ys[0] == Initial() && i < |es| && (es[i].Succeeded? || es[i].Revoked?)
    requires CommandSigned(cfg.identities, es[i].command)
    ensures Due(cfg, ys, es, i, c) <==> Answer(cfg, ys[i].state, es[i]) == Some(c)
  {
    RunStatus(cfg, ys, es, i, c.name);
  }

  lemma TimerDue(cfg: Config, ys: seq<System>, es: seq<Event>, i: nat, c: Command)
    requires i < |es| < |ys| && (es[i].Refresh? || es[i].Retry?) && es[i].key in ys[i].state.entries
    requires var x := ys[i].state.entries[es[i].key];
             x.timer == LastTimer(cfg, ys, es, i, es[i].key) && EntrySigned(cfg.identities, es[i].key, x) &&
             (if es[i].Refresh? then x.timer.RefreshTimer? else x.timer.RetryTimer?)
    ensures Due(cfg, ys, es, i, c) <==> Answer(cfg, ys[i].state, es[i]) == Some(c)
  {
  }

  lemma AnswerDue(cfg: Config, ys: seq<System>, es: seq<Event>, i: nat, c: Command)
    requires IsRun(cfg, ys, es) && ys[0] == Initial() && i < |es| && !es[i].Inserted? && !es[i].Erased?
    requires Signed(cfg.identities, ys[i].state)
    ensures Due(cfg, ys, es, i, c) <==> Answer(cfg, ys[i].state, es[i]) == Some(c)
  {
    assert Enabled(ys[i], es[i]);
    if es[i].Succeeded? || es[i].Revoked? {
      assert es[i].command in ys[i].state.sent;
      ResponseDue(cfg, ys, es, i, c);
    } else if es[i].Refresh? || es[i].Retry? {
      RunTimer(cfg, ys, es, i, es[i].key);
      assert EntrySigned(cfg.identities, es[i].key, ys[i].state.entries[es[i].key]);
      TimerDue(cfg, ys, es, i, c);
    }
  }

  lemma ResultSends(cfg: Config, ys: seq<System>, es: seq<Event>, i: nat, c: Command)
    requires IsRun(cfg, ys, es) && ys[0] == Initial() && i < |es| && !es[i].Inserted? && !es[i].Erased?
    requires Signed(cfg.identities, ys[i].state)
    ensures ys[i + 1].state.sent[c] == ys[i].state.sent[c] + if Due(cfg, ys, es, i, c) then 1 else 0
  {
    assert Enabled(ys[i], es[i]) && ys[i + 1] == Step(cfg, ys[i], es[i]);
    ResultAnswer(cfg, ys[i], es[i]);
    AnswerDue(cfg, ys, es, i, c);
  }

  lemma StepSends(cfg: Config, ys: seq<System>, es: seq<Event>, i: nat, c: Command)
    requires IsRun(cfg, ys, es) && ys[0] == Initial() && i < |es|
    ensures ys[i + 1].state.sent[c] == ys[i].state.sent[c] + if Due(cfg, ys, es, i, c) then 1 else 0
  {
    RunSigned(cfg, ys, es, i);
    if es[i].Inserted? {
      InsertedSends(cfg, ys, es, i, c);
    } else if es[i].Erased? {
      ErasedSends(cfg, ys, es, i, c);
    } else {
      ResultSends(cfg, ys, es, i, c);
    }
  }

  /** On every run, each command was sent exactly as often as an event was to send it. */
  lemma {:induction false} RunSends(cfg: Config, ys: seq<System>, es: seq<Event>, k: nat, c: Command)
    requires IsRun(cfg, ys, es) && ys[0] == Initial() && k <= |es|
    ensures ys[k].state.sent[c] == Sends(cfg, ys, es, k, c)
  {
    if k > 0 {
      RunSends(cfg, ys, es, k - 1, c);
      StepSends(cfg, ys, es, k - 1, c);
    }
  }

  /** The names that are treated specially: "/localhost", "/localhop/nfd" and a last component "nrd". */
  lemma SpecialNames()
    ensures |LOCAL_REGISTRATION_PREFIX| == 1 && UriForms.Spelled(LOCAL_REGISTRATION_PREFIX[0].value) == "localhost"
    ensures |LINK_LOCAL_NFD_PREFIX| == 2 && UriForms.Spelled(LINK_LOCAL_NFD_PREFIX[0].value) == "localhop" &&
            UriForms.Spelled(LINK_LOCAL_NFD_PREFIX[1].value) == "nfd"
    ensures UriForms.Spelled(IGNORE_COMPONENT.value) == "nrd"
  {
  }
}
