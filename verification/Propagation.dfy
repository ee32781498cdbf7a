/** Automatic prefix propagation: the propagated prefixes follow the RIB (auto-prefix-propagator.cpp). */
module Propagation {
  import opened Wrappers
  import opened Components
  import opened Names

  const LOCAL_REGISTRATION_PREFIX: Name := [Component(NAME_COMPONENT, [108, 111, 99, 97, 108, 104, 111, 115, 116])]
  const LINK_LOCAL_NFD_PREFIX: Name :=
    [Component(NAME_COMPONENT, [108, 111, 99, 97, 108, 104, 111, 112]), Component(NAME_COMPONENT, [110, 102, 100])]
  const IGNORE_COMPONENT := Component(NAME_COMPONENT, [110, 114, 100])

  // ----- the choice of a prefix -----

  /** The prefix that an identity may register: without a last component "nrd". */
  function PrefixOf(i: Name): Name {
    if |i| > 0 && i[|i| - 1] == IGNORE_COMPONENT then i[..|i| - 1] else i
  }

  predicate Covers(i: Name, n: Name) {
    PrefixOf(i) <= n
  }

  /** The position of the first identity of the least size among the first k that cover n; -1 if there is none. */
  function Best(ids: seq<Name>, n: Name, k: nat): (b: int)
    requires k <= |ids|
    ensures -1 <= b < k
    ensures b < 0 ==> forall j :: 0 <= j < k ==> !Covers(ids[j], n)
    ensures b >= 0 ==> Covers(ids[b], n) &&
                       forall j :: 0 <= j < k && Covers(ids[j], n) ==>
                         |ids[b]| < |ids[j]| || (|ids[b]| == |ids[j]| && b <= j)
  {
    if k == 0 then -1
    else
      var b := Best(ids, n, k - 1);
      if Covers(ids[k - 1], n) && (b < 0 || |ids[k - 1]| < |ids[b]|) then k - 1 else b
  }

  lemma NextBest(ids: seq<Name>, n: Name, k: nat) returns (b: int)
    requires k < |ids|
    ensures b == Best(ids, n, k + 1)
    ensures var best := Best(ids, n, k);
            b == if Covers(ids[k], n) && (best < 0 || |ids[k]| < |ids[best]|) then k else best
  {
    b := Best(ids, n, k + 1);
  }

  /** The identity chosen for n. */
  function Chosen(ids: seq<Name>, n: Name): Option<Name> {
    var b := Best(ids, n, |ids|);
    if b < 0 then None else Some(ids[b])
  }

  predicate Signable(ids: seq<Name>, n: Name) {
    Chosen(ids, n).Some?
  }

  /** The prefix that is propagated for n. */
  function Key(ids: seq<Name>, n: Name): Name
    requires Signable(ids, n)
  {
    PrefixOf(Chosen(ids, n).value)
  }

  predicate EndsInNrd(i: Name) {
    |i| > 0 && i[|i| - 1] == IGNORE_COMPONENT
  }

  /**
   * The documentation promises the shortest prefix, the code compares identities: the prefix is the shortest one unless
   * an identity as short as the chosen one ends in "nrd" and the chosen one does not.
   */
  lemma ShortestPrefix(ids: seq<Name>, n: Name)
    requires Signable(ids, n)
    ensures var i := Chosen(ids, n).value;
            (forall j :: 0 <= j < |ids| && Covers(ids[j], n) ==> |Key(ids, n)| <= |PrefixOf(ids[j])|) <==>
              (EndsInNrd(i) || forall j :: 0 <= j < |ids| && Covers(ids[j], n) && EndsInNrd(ids[j]) ==> |i| < |ids[j]|)
  {
  }

  /** The choice is idempotent. */
  lemma KeyIdempotent(ids: seq<Name>, n: Name)
    requires Signable(ids, n)
    ensures Signable(ids, Key(ids, n)) && Key(ids, Key(ids, n)) == Key(ids, n) && Key(ids, n) <= n
    ensures Chosen(ids, Key(ids, n)) == Chosen(ids, n)
  {
  }

  // ----- state -----

  datatype Status = New | Propagating | Propagated | PropagateFail

  /** The scoped event of an entry, with what its handler is bound to; it goes with the entry. */
  datatype Timer = NoTimer | RefreshTimer(signer: Name) | RetryTimer(signer: Name, wait: nat)

  datatype PropagatedEntry = PropagatedEntry(signingIdentity: Name, status: Status, timer: Timer)

  /** Registration and unregistration commands to the hub; a register command carries its wait before a retry. */
  datatype Command = Advertise(name: Name, signer: Name, retryWait: nat) | Withdraw(name: Name, signer: Name)

  /** All identities, the default one last, and the retry parameters. */
  datatype Config = Config(identities: seq<Name>, baseRetryWait: nat, maxRetryWait: nat)

  /** sent holds every command that was sent so far. */
  datatype State = State(entries: map<Name, PropagatedEntry>, hub: bool, sent: multiset<Command>)

  /** startPropagation leaves a timer as it is. */
  function Restarted(s: State, k: Name): State
    requires k in s.entries
  {
    s.(entries := s.entries[k := s.entries[k].(status := Propagating)])
  }

  function Send(s: State, c: Command): State {
    s.(sent := s.sent + multiset{c})
  }

  predicate IsLocal(n: Name) {
    LOCAL_REGISTRATION_PREFIX <= n
  }

  predicate Propagatable(n: Name) {
    !IsLocal(n) && n != LINK_LOCAL_NFD_PREFIX
  }

  /** afterRibInsert. */
  function RibInsert(cfg: Config, s: State, k: Name, signer: Name): State {
    var s1 := s.(entries := s.entries[k := PropagatedEntry(signer, New, NoTimer)]);
    if s.hub then Send(Restarted(s1, k), Advertise(k, signer, cfg.baseRetryWait)) else s1
  }

  /** afterInsertRibEntry for a name that is neither local nor the hub's. */
  function InsertName(cfg: Config, s: State, n: Name): State {
    if !Signable(cfg.identities, n) || Key(cfg.identities, n) in s.entries then s
    else RibInsert(cfg, s, Key(cfg.identities, n), Chosen(cfg.identities, n).value)
  }

  /** afterRibErase. */
  function RibErase(s: State, k: Name, signer: Name): State
    requires k in s.entries
  {
    var s1 := s.(entries := s.entries - {k});
    if s.hub && s.entries[k].status == Propagated then Send(s1, Withdraw(k, signer)) else s1
  }

  /** Some name of the RIB, whatever its kind, is covered by the propagated prefix of n and has its signer. */
  predicate KeptFor(ids: seq<Name>, rib: set<Name>, n: Name)
    requires Signable(ids, n)
  {
    exists r :: r in rib && Key(ids, n) <= r && Chosen(ids, r) == Chosen(ids, n)
  }

  /** afterEraseRibEntry for such a name. */
  function EraseName(cfg: Config, s: State, rib: set<Name>, n: Name): State {
    var ids := cfg.identities;
    if !Signable(ids, n) || Key(ids, n) !in s.entries || KeptFor(ids, rib, n) then s
    else RibErase(s, Key(ids, n), Chosen(ids, n).value)
  }

  /** doesCurrentPropagatedPrefixWork. */
  predicate Works(ids: seq<Name>, p: Name) {
    Signable(ids, p) && |Key(ids, p)| == |p|
  }

  /** Every propagated prefix is the choice for itself, by the identity that is recorded. */
  ghost predicate AllWork(ids: seq<Name>, entries: map<Name, PropagatedEntry>) {
    forall k :: k in entries ==> Works(ids, k) && Chosen(ids, k) == Some(entries[k].signingIdentity)
  }

  /** afterHubConnect, when every propagated prefix works. */
  function HubConnect(cfg: Config, s: State): State {
    State(map k | k in s.entries :: s.entries[k].(status := Propagating), true,
          s.sent + multiset(set k | k in s.entries :: Advertise(k, s.entries[k].signingIdentity, cfg.baseRetryWait)))
  }

  function HubDisconnect(s: State): State {
    s.(hub := false, entries := map k | k in s.entries :: s.entries[k].(status := New, timer := NoTimer))
  }

  function WithInserted(cfg: Config, s: State, n: Name): State {
    if IsLocal(n) then s
    else if n == LINK_LOCAL_NFD_PREFIX then HubConnect(cfg, s)
    else InsertName(cfg, s, n)
  }

  function WithErased(cfg: Config, s: State, rib: set<Name>, n: Name): State {
    if IsLocal(n) then s
    else if n == LINK_LOCAL_NFD_PREFIX then HubDisconnect(s)
    else EraseName(cfg, s, rib, n)
  }

  function WithSuccess(s: State, k: Name, signer: Name): State {
    if k !in s.entries then Send(s, Withdraw(k, signer))
    else s.(entries := s.entries[k := s.entries[k].(status := Propagated, timer := RefreshTimer(signer))])
  }

  /** The wait before the next retry: twice the last one, up to the limit. */
  function NextWait(cfg: Config, wait: nat): nat {
    if wait * 2 < cfg.maxRetryWait then wait * 2 else cfg.maxRetryWait
  }

  function WithFailure(cfg: Config, s: State, k: Name, signer: Name, wait: nat): State {
    if k !in s.entries then s
    else
      var timer := RetryTimer(signer, NextWait(cfg, wait));
      s.(entries := s.entries[k := s.entries[k].(status := PropagateFail, timer := timer)])
  }

  function WithRevoked(s: State, k: Name, signer: Name, wait: nat): State {
    if k !in s.entries || s.entries[k].status == PropagateFail then s
    else Send(Restarted(s, k), Advertise(k, signer, wait))
  }

  /** redoPropagation, when the propagated prefix works. */
  function Redo(s: State, k: Name, signer: Name, wait: nat): State
    requires k in s.entries
  {
    Send(Restarted(s, k), Advertise(k, signer, wait))
  }

  /** A timer that fires is gone. */
  function Fired(s: State, k: Name): State
    requires k in s.entries
  {
    s.(entries := s.entries[k := s.entries[k].(timer := NoTimer)])
  }

  // ----- events and asserts -----

  datatype Event =
    | Inserted(name: Name)             // the RIB signals a new entry
    | Erased(name: Name)               // the RIB signals that an entry is gone
    | Succeeded(command: Command)      // a register command succeeded
    | Failed(command: Command)         // a register command failed or timed out
    | Revoked(command: Command)        // an unregister command succeeded
    | RevokeFailed(command: Command)   // an unregister command failed or timed out
    | Refresh(key: Name)               // the timer of an entry fires
    | Retry(key: Name)

  predicate AllNew(entries: map<Name, PropagatedEntry>) {
    forall k :: k in entries ==> entries[k].status == New
  }

  predicate NoneNew(entries: map<Name, PropagatedEntry>) {
    forall k :: k in entries ==> entries[k].status != New
  }

  /** What the handler of an event asserts of the entries. */
  predicate AssertHolds(s: State, e: Event) {
    match e
    case Inserted(n) => n == LINK_LOCAL_NFD_PREFIX ==> AllNew(s.entries)
    case Erased(n) => n == LINK_LOCAL_NFD_PREFIX ==> NoneNew(s.entries)
    case Succeeded(c) => c.name in s.entries ==> s.entries[c.name].status == Propagating
    case Failed(c) => c.name in s.entries ==> s.entries[c.name].status == Propagating
    case Revoked(c) => c.name in s.entries ==> s.entries[c.name].status != New
    case RevokeFailed(c) => true
    case Refresh(k) => k in s.entries && s.entries[k].status == Propagated
    case Retry(k) => k in s.entries && s.entries[k].status == PropagateFail
  }

  lemma HubIsNotLocal()
    ensures !IsLocal(LINK_LOCAL_NFD_PREFIX)
  {
    assert LOCAL_REGISTRATION_PREFIX[0] != LINK_LOCAL_NFD_PREFIX[0];
  }

  // ----- a prefix that no longer works -----

  /** An inserted name adds its prefix, if it has one. */
  lemma InsertNameKeys(cfg: Config, s: State, n: Name)
    requires AllWork(cfg.identities, s.entries)
    ensures var ids, s' := cfg.identities, InsertName(cfg, s, n);
            s'.entries.Keys == s.entries.Keys + (if Signable(ids, n) then {Key(ids, n)} else {}) &&
            AllWork(ids, s'.entries) && s'.hub == s.hub
  {
    if Signable(cfg.identities, n) {
      KeyIdempotent(cfg.identities, n);
    }
  }

  /** The second half of redoPropagation: the RIB names below the old prefix p are handled as if they were new. */
  function Reinsert(cfg: Config, s: State, names: seq<Name>, p: Name): State {
    if |names| == 0 then s
    else
      var s1, r := Reinsert(cfg, s, names[..|names| - 1], p), names[|names| - 1];
      if p <= r && !IsLocal(r) then InsertName(cfg, s1, r) else s1
  }

  /** The prefixes of the signable names below p. */
  function KeysBelow(ids: seq<Name>, names: seq<Name>, p: Name): set<Name> {
    set r | r in names && p <= r && !IsLocal(r) && Signable(ids, r) :: Key(ids, r)
  }

  lemma KeysBelowLast(ids: seq<Name>, names: seq<Name>, p: Name)
    requires |names| > 0
    ensures var r, front := names[|names| - 1], KeysBelow(ids, names[..|names| - 1], p);
            KeysBelow(ids, names, p) ==
            front + if p <= r && !IsLocal(r) && Signable(ids, r) then {Key(ids, r)} else {}
  {
    assert names == names[..|names| - 1] + [names[|names| - 1]];
  }

  /** Afterwards exactly their prefixes have been added. */
  lemma {:induction false} ReinsertKeys(cfg: Config, s: State, names: seq<Name>, p: Name)
    requires AllWork(cfg.identities, s.entries)
    ensures var s' := Reinsert(cfg, s, names, p);
            AllWork(cfg.identities, s'.entries) && s'.hub == s.hub &&
            s'.entries.Keys == s.entries.Keys + KeysBelow(cfg.identities, names, p)
  {
    if |names| > 0 {
      var k := |names| - 1;
      ReinsertKeys(cfg, s, names[..k], p);
      InsertNameKeys(cfg, Reinsert(cfg, s, names[..k], p), names[k]);
      KeysBelowLast(cfg.identities, names, p);
    }
  }

  /** redoPropagation: a prefix that works is registered again; otherwise the RIB names below it are handled anew. */
  function Redone(cfg: Config, s: State, k: Name, signer: Name, wait: nat, rib: seq<Name>): State
    requires k in s.entries
  {
    if Works(cfg.identities, k) then Redo(s, k, signer, wait)
    else Reinsert(cfg, s.(entries := s.entries - {k}), rib, k)
  }

  /** A prefix that no longer works goes, and exactly the prefixes of the signable names below it come. */
  lemma RedoneKeys(cfg: Config, s: State, k: Name, signer: Name, wait: nat, rib: seq<Name>)
    requires k in s.entries && !Works(cfg.identities, k) && AllWork(cfg.identities, s.entries - {k})
    ensures var s' := Redone(cfg, s, k, signer, wait, rib);
            s'.entries.Keys == s.entries.Keys - {k} + KeysBelow(cfg.identities, rib, k) &&
            k !in s'.entries && AllWork(cfg.identities, s'.entries)
  {
    ReinsertKeys(cfg, s.(entries := s.entries - {k}), rib, k);
    assert (s.entries - {k}).Keys == s.entries.Keys - {k};
    forall r | r in rib && Signable(cfg.identities, r)
      ensures Key(cfg.identities, r) != k
    {
      KeyIdempotent(cfg.identities, r);
    }
  }

  /** afterHubConnect for the entries in ks, one after the other. */
  function RedoneAll(cfg: Config, s: State, ks: seq<Name>, rib: seq<Name>): State {
    if |ks| == 0 then s
    else
      var s1, k := RedoneAll(cfg, s, ks[..|ks| - 1], rib), ks[|ks| - 1];
      if k in s1.entries then Redone(cfg, s1, k, s1.entries[k].signingIdentity, cfg.baseRetryWait, rib) else s1
  }

  /** redoPropagation does not come back to the hub's own name. */
  predicate CanRedo(ids: seq<Name>, k: Name) {
    Works(ids, k) || !(k <= LINK_LOCAL_NFD_PREFIX)
  }

  /** ks lists the keys of the entries. */
  ghost predicate Orders(ks: seq<Name>, entries: map<Name, PropagatedEntry>) {
    NoRepeats(ks) && (set k | k in ks) == entries.Keys
  }

  predicate NoRepeats(ks: seq<Name>) {
    forall i, j :: 0 <= i < j < |ks| ==> ks[i] != ks[j]
  }

  /** Reinsertion leaves the entries that are there alone. */
  lemma {:induction false} ReinsertFrame(cfg: Config, s: State, names: seq<Name>, p: Name, k: Name)
    requires k in s.entries
    ensures k in Reinsert(cfg, s, names, p).entries && Reinsert(cfg, s, names, p).entries[k] == s.entries[k]
  {
    if |names| > 0 {
      ReinsertFrame(cfg, s, names[..|names| - 1], p, k);
    }
  }

  /** An entry that was not handled yet is as it was. */
  lemma {:induction false} RedoneFrame(cfg: Config, s: State, ks: seq<Name>, rib: seq<Name>, k: Name)
    requires k in s.entries && k !in ks
    ensures k in RedoneAll(cfg, s, ks, rib).entries && RedoneAll(cfg, s, ks, rib).entries[k] == s.entries[k]
  {
    if |ks| > 0 {
      var rest, last := ks[..|ks| - 1], ks[|ks| - 1];
      RedoneFrame(cfg, s, rest, rib, k);
      var s1 := RedoneAll(cfg, s, rest, rib);
      if last in s1.entries && !Works(cfg.identities, last) {
        ReinsertFrame(cfg, s1.(entries := s1.entries - {last}), rib, last, k);
      }
    }
  }

  /** The state in afterHubConnect once the entries ks were handled, when every prefix works. */
  function Connecting(cfg: Config, s: State, ks: set<Name>): State
    requires ks <= s.entries.Keys
  {
    s.(entries := map k | k in s.entries :: if k in ks then s.entries[k].(status := Propagating) else s.entries[k],
       sent := s.sent + multiset(Advertisements(cfg, s, ks)))
  }

  function Advertisements(cfg: Config, s: State, ks: set<Name>): set<Command>
    requires ks <= s.entries.Keys
  {
    set k | k in ks :: Advertise(k, s.entries[k].signingIdentity, cfg.baseRetryWait)
  }

  lemma ConnectingStep(cfg: Config, s: State, ks: set<Name>, k: Name)
    requires ks <= s.entries.Keys && k in s.entries && k !in ks
    ensures Connecting(cfg, s, ks).entries[k] == s.entries[k]
    ensures Redo(Connecting(cfg, s, ks), k, s.entries[k].signingIdentity, cfg.baseRetryWait) ==
            Connecting(cfg, s, ks + {k})
  {
  }

  /** One more entry, while all that were handled before have prefixes that work. */
  lemma WorkingStep(cfg: Config, s: State, ks: seq<Name>, k: Name, done: set<Name>, rib: seq<Name>)
    requires AllWork(cfg.identities, s.entries) && done <= s.entries.Keys && k in s.entries && k !in done
    requires RedoneAll(cfg, s, ks, rib) == Connecting(cfg, s, done)
    ensures RedoneAll(cfg, s, ks + [k], rib) == Connecting(cfg, s, done + {k})
  {
    assert (ks + [k])[..|ks|] == ks;
    ConnectingStep(cfg, s, done, k);
  }

  lemma WithoutLast(ks: seq<Name>, done: set<Name>) returns (before: set<Name>)
    requires NoRepeats(ks) && |ks| > 0 && forall k :: k in ks <==> k in done
    ensures var rest, k := ks[..|ks| - 1], ks[|ks| - 1];
            ks == rest + [k] && NoRepeats(rest) && k !in before && before + {k} == done && before <= done &&
            forall x :: x in rest <==> x in before
  {
    var rest, k := ks[..|ks| - 1], ks[|ks| - 1];
    before := done - {k};
    assert ks == rest + [k];
  }

  lemma {:induction false} WorkingConnect(cfg: Config, s: State, ks: seq<Name>, rib: seq<Name>, done: set<Name>)
    requires AllWork(cfg.identities, s.entries) && NoRepeats(ks) && done <= s.entries.Keys
    requires forall k :: k in ks <==> k in done
    ensures RedoneAll(cfg, s, ks, rib) == Connecting(cfg, s, done)
  {
    if |ks| > 0 {
      var rest, k := ks[..|ks| - 1], ks[|ks| - 1];
      var before := WithoutLast(ks, done);
      WorkingConnect(cfg, s, rest, rib, before);
      WorkingStep(cfg, s, rest, k, before, rib);
    }
  }

  /** When every prefix works, each is registered with the hub exactly once, whatever the order. */
  lemma ConnectAnyOrder(cfg: Config, s: State, ks: seq<Name>, rib: seq<Name>)
    requires AllWork(cfg.identities, s.entries) && s.hub && Orders(ks, s.entries)
    ensures RedoneAll(cfg, s, ks, rib) == HubConnect(cfg, s)
  {
    var done := set k | k in ks;
    WorkingConnect(cfg, s, ks, rib, done);
  }

  lemma {:induction false} ReinsertWorks(cfg: Config, s: State, names: seq<Name>, p: Name, k: Name)
    requires k in Reinsert(cfg, s, names, p).entries
    ensures k in s.entries || Works(cfg.identities, k)
  {
    if |names| > 0 {
      var s1, r := Reinsert(cfg, s, names[..|names| - 1], p), names[|names| - 1];
      if k in s1.entries {
        ReinsertWorks(cfg, s, names[..|names| - 1], p, k);
      } else {
        KeyIdempotent(cfg.identities, r);
      }
    }
  }

  /** Of the prefixes that were handled only those that work are left, and what came for them works. */
  lemma {:induction false} HandledWorks(cfg: Config, s: State, ks: seq<Name>, rib: seq<Name>, k: Name)
    requires k in RedoneAll(cfg, s, ks, rib).entries
    ensures Works(cfg.identities, k) || (k in s.entries && k !in ks)
  {
    if |ks| > 0 {
      var s1, last := RedoneAll(cfg, s, ks[..|ks| - 1], rib), ks[|ks| - 1];
      if k in s1.entries {
        HandledWorks(cfg, s, ks[..|ks| - 1], rib, k);
      }
      if last in s1.entries && !Works(cfg.identities, last) {
        ReinsertWorks(cfg, s1.(entries := s1.entries - {last}), rib, last, k);
      }
    }
  }

  /** After a hub was connected every propagated prefix works, whatever the identities were before. */
  lemma ConnectWorks(cfg: Config, s: State, ks: seq<Name>, rib: seq<Name>, k: Name)
    requires Orders(ks, s.entries) && k in RedoneAll(cfg, s, ks, rib).entries
    ensures Works(cfg.identities, k)
  {
    HandledWorks(cfg, s, ks, rib, k);
    assert k in s.entries ==> k in (set x | x in ks);
  }

  // ----- the class -----

  class AutoPrefixPropagator {
    var cfg: Config
    var propagatedEntries: map<Name, PropagatedEntry>
    var hasConnectedHub: bool
    var sent: multiset<Command>

    ghost function View(): State
      reads this
    {
      State(propagatedEntries, hasConnectedHub, sent)
    }

    constructor (cfg: Config)
      ensures this.cfg == cfg && View() == State(map[], false, multiset{})
    {
      this.cfg := cfg;
      propagatedEntries, hasConnectedHub, sent := map[], false, multiset{};
    }

    /** The propagated prefix and the signing identity. */
    method GetPrefixPropagationParameters(localRibPrefix: Name) returns (r: Option<(Name, Name)>)
      ensures r == if Signable(cfg.identities, localRibPrefix)
                   then Some((Key(cfg.identities, localRibPrefix), Chosen(cfg.identities, localRibPrefix).value))
                   else None
    {
      var identities := cfg.identities;
      var propagatedPrefix, signingIdentity: Name := [], [];
      var isFound := false;
      ghost var b := -1;
      var k := 0;
      while k < |identities|
        invariant k <= |identities| && b == Best(identities, localRibPrefix, k) && (isFound <==> b >= 0)
        invariant isFound ==> signingIdentity == identities[b] && propagatedPrefix == PrefixOf(signingIdentity)
      {
        var i := identities[k];
        var prefix := if |i| > 0 && IGNORE_COMPONENT == i[|i| - 1] then i[..|i| - 1] else i;
        var covers := Names.IsPrefixOf(prefix, localRibPrefix);
        assert prefix == PrefixOf(i) && (covers <==> Covers(i, localRibPrefix));
        b := NextBest(identities, localRibPrefix, k);
        if covers && (!isFound || |i| < |signingIdentity|) {
          isFound := true;
          propagatedPrefix := prefix;
          signingIdentity := i;
        }
        k := k + 1;
      }
      r := if isFound then Some((propagatedPrefix, signingIdentity)) else None;
    }

    method DoesCurrentPropagatedPrefixWork(prefix: Name) returns (works: bool)
      ensures works <==> Works(cfg.identities, prefix)
    {
      var parameters := GetPrefixPropagationParameters(prefix);
      works := parameters.Some? && |parameters.value.0| == |prefix|;
    }

    method StartPropagation(k: Name)
      requires k in propagatedEntries
      modifies this`propagatedEntries
      ensures View() == Restarted(old(View()), k)
    {
      propagatedEntries := propagatedEntries[k := propagatedEntries[k].(status := Propagating)];
    }

    method SendCommand(c: Command)
      modifies this`sent
      ensures sent == old(sent) + multiset{c}
    {
      sent := sent + multiset{c};
    }

    method AfterRibInsert(k: Name, signer: Name)
      requires k !in propagatedEntries
      modifies this`propagatedEntries, this`sent
      ensures View() == RibInsert(cfg, old(View()), k, signer)
    {
      propagatedEntries := propagatedEntries[k := PropagatedEntry(signer, New, NoTimer)];
      if !hasConnectedHub {
        return;
      }
      StartPropagation(k);
      SendCommand(Advertise(k, signer, cfg.baseRetryWait));
    }

    method AfterRibErase(k: Name, signer: Name)
      requires k in propagatedEntries
      modifies this`propagatedEntries, this`sent
      ensures View() == RibErase(old(View()), k, signer)
    {
      var hasPropagationSucceeded := propagatedEntries[k].status == Propagated;
      propagatedEntries := propagatedEntries - {k};
      if !hasConnectedHub || !hasPropagationSucceeded {
        return;
      }
      SendCommand(Withdraw(k, signer));
    }

    /** afterInsertRibEntry from the point where the name is known to be neither local nor the hub's. */
    method InsertSignable(prefix: Name)
      modifies this`propagatedEntries, this`sent
      ensures View() == InsertName(cfg, old(View()), prefix)
    {
      var parameters := GetPrefixPropagationParameters(prefix);
      if parameters.None? || parameters.value.0 in propagatedEntries {
        return;
      }
      AfterRibInsert(parameters.value.0, parameters.value.1);
    }

    /** order is the order in which a new hub is sent the entries. */
    method AfterInsertRibEntry(prefix: Name, rib: seq<Name>) returns (asserts: bool, ghost order: seq<Name>)
      requires prefix == LINK_LOCAL_NFD_PREFIX ==> forall k :: k in propagatedEntries ==> CanRedo(cfg.identities, k)
      modifies this`propagatedEntries, this`sent, this`hasConnectedHub
      ensures prefix == LINK_LOCAL_NFD_PREFIX ==>
                Orders(order, old(propagatedEntries)) &&
                View() == RedoneAll(cfg, old(View()).(hub := true), order, rib)
      ensures prefix != LINK_LOCAL_NFD_PREFIX || AllWork(cfg.identities, old(propagatedEntries)) ==>
                View() == WithInserted(cfg, old(View()), prefix)
      ensures asserts <==> AssertHolds(old(View()), Inserted(prefix))
    {
      asserts, order := true, [];
      HubIsNotLocal();
      if LOCAL_REGISTRATION_PREFIX <= prefix {
        return;
      }
      if prefix == LINK_LOCAL_NFD_PREFIX {
        hasConnectedHub := true;
        asserts, order := AfterHubConnect(rib);
        return;
      }
      InsertSignable(prefix);
    }

    method AfterEraseRibEntry(prefix: Name, rib: seq<Name>) returns (asserts: bool)
      modifies this`propagatedEntries, this`sent, this`hasConnectedHub
      ensures View() == WithErased(cfg, old(View()), (set n | n in rib), prefix)
      ensures asserts <==> AssertHolds(old(View()), Erased(prefix))
    {
      asserts := true;
      HubIsNotLocal();
      if LOCAL_REGISTRATION_PREFIX <= prefix {
        return;
      }
      if prefix == LINK_LOCAL_NFD_PREFIX {
        hasConnectedHub := false;
        asserts := AfterHubDisconnect();
        return;
      }
      EraseSignable(prefix, rib);
    }

    method EraseSignable(prefix: Name, rib: seq<Name>)
      modifies this`propagatedEntries, this`sent
      ensures View() == EraseName(cfg, old(View()), (set n | n in rib), prefix)
    {
      var parameters := GetPrefixPropagationParameters(prefix);
      if parameters.None? || parameters.value.0 !in propagatedEntries {
        return;
      }
      var kept := IsKept(parameters.value.0, parameters.value.1, rib);
      assert kept <==> KeptFor(cfg.identities, (set n | n in rib), prefix);
      if !kept {
        AfterRibErase(parameters.value.0, parameters.value.1);
      }
    }

    /** The loop of afterEraseRibEntry over the RIB. */
    method IsKept(k: Name, signer: Name, rib: seq<Name>) returns (kept: bool)
      ensures kept <==> exists r :: r in rib && k <= r && Chosen(cfg.identities, r) == Some(signer)
    {
      var i := 0;
      while i < |rib|
        invariant i <= |rib| && forall j :: 0 <= j < i ==>
                  !(k <= rib[j] && Chosen(cfg.identities, rib[j]) == Some(signer))
      {
        if k <= rib[i] {
          var other := GetPrefixPropagationParameters(rib[i]);
          if other.Some? && signer == other.value.1 {
            return true;
          }
        }
        i := i + 1;
      }
      return false;
    }

    /** A prefix that works is registered again; otherwise the RIB names below it are handled anew. */
    method RedoPropagation(k: Name, signer: Name, retryWait: nat, rib: seq<Name>)
      requires k in propagatedEntries && CanRedo(cfg.identities, k)
      modifies this`propagatedEntries, this`sent
      ensures View() == Redone(cfg, old(View()), k, signer, retryWait, rib)
    {
      var works := DoesCurrentPropagatedPrefixWork(k);
      if works {
        StartPropagation(k);
        SendCommand(Advertise(k, signer, retryWait));
        return;
      }
      propagatedEntries := propagatedEntries - {k};
      ghost var s := View();
      var i := 0;
      while i < |rib|
        invariant i <= |rib|
        invariant View() == Reinsert(cfg, s, rib[..i], k)
      {
        assert rib[..i + 1][..i] == rib[..i];
        // The hub's name is not below k, so afterInsertRibEntry does not come back here.
        if k <= rib[i] && !(LOCAL_REGISTRATION_PREFIX <= rib[i]) {
          InsertSignable(rib[i]);
        }
        i := i + 1;
      }
      assert rib[..i] == rib;
    }

    /** Every entry is handled once, in any order; each that works is registered with the new hub. */
    method AfterHubConnect(rib: seq<Name>) returns (asserts: bool, ghost order: seq<Name>)
      requires hasConnectedHub && forall k :: k in propagatedEntries ==> CanRedo(cfg.identities, k)
      modifies this`propagatedEntries, this`sent
      ensures Orders(order, old(propagatedEntries)) && View() == RedoneAll(cfg, old(View()), order, rib)
      ensures AllWork(cfg.identities, old(propagatedEntries)) ==> View() == HubConnect(cfg, old(View()))
      ensures asserts <==> AllNew(old(propagatedEntries))
    {
      var regEntries;
      asserts, regEntries := CollectEntries();
      order := regEntries;
      ghost var c, s := cfg, View();
      var i := 0;
      while i < |regEntries|
        invariant i <= |regEntries| && cfg == c && View() == RedoneAll(c, s, regEntries[..i], rib)
      {
        var k := regEntries[i];
        assert k in s.entries by {
          assert k in set x | x in regEntries;
        }
        RedoneFrame(c, s, regEntries[..i], rib, k);
        RedoPropagation(k, propagatedEntries[k].signingIdentity, cfg.baseRetryWait, rib);
        assert regEntries[..i + 1][..i] == regEntries[..i];
        i := i + 1;
      }
      assert regEntries[..i] == regEntries;
      if AllWork(c.identities, s.entries) {
        ConnectAnyOrder(c, s, regEntries, rib);
      }
    }

    /** The first loop of afterHubConnect, in any order. */
    method CollectEntries() returns (asserts: bool, regEntries: seq<Name>)
      ensures Orders(regEntries, propagatedEntries) && (asserts <==> AllNew(propagatedEntries))
    {
      asserts, regEntries := true, [];
      var rest := propagatedEntries.Keys;
      while rest != {}
        invariant NoRepeats(regEntries) && forall k :: k in propagatedEntries <==> k in rest || k in regEntries
        invariant forall k :: k in rest ==> k !in regEntries
        invariant asserts <==> forall k :: k in regEntries ==> propagatedEntries[k].status == New
        decreases rest
      {
        var k :| k in rest;
        asserts := asserts && propagatedEntries[k].status == New;
        rest, regEntries := rest - {k}, regEntries + [k];
      }
    }

    method AfterHubDisconnect() returns (asserts: bool)
      requires !hasConnectedHub
      modifies this`propagatedEntries
      ensures View() == HubDisconnect(old(View()))
      ensures asserts <==> NoneNew(old(propagatedEntries))
    {
      asserts := true;
      ghost var s := propagatedEntries;
      ghost var done: set<Name> := {};
      var rest := propagatedEntries.Keys;
      while rest != {}
        invariant rest !! done && rest + done == s.Keys
        invariant asserts <==> forall k :: k in done ==> s[k].status != New
        invariant propagatedEntries ==
                  map k | k in s :: if k in done then s[k].(status := New, timer := NoTimer) else s[k]
        decreases rest
      {
        var k :| k in rest;
        rest := rest - {k};
        asserts := asserts && propagatedEntries[k].status != New;
        propagatedEntries := propagatedEntries[k := propagatedEntries[k].(status := New, timer := NoTimer)];
        done := done + {k};
      }
    }

    method AfterPropagateSucceed(c: Command) returns (asserts: bool)
      requires c.Advertise?
      modifies this`propagatedEntries, this`sent
      ensures View() == WithSuccess(old(View()), c.name, c.signer)
      ensures asserts <==> AssertHolds(old(View()), Succeeded(c))
    {
      var k := c.name;
      if k !in propagatedEntries {
        SendCommand(Withdraw(k, c.signer));
        return true;
      }
      asserts := propagatedEntries[k].status == Propagating;
      var confirmed := propagatedEntries[k].(status := Propagated, timer := RefreshTimer(c.signer));
      propagatedEntries := propagatedEntries[k := confirmed];
    }

    method AfterPropagateFail(c: Command) returns (asserts: bool)
      requires c.Advertise?
      modifies this`propagatedEntries, this`sent
      ensures View() == WithFailure(cfg, old(View()), c.name, c.signer, c.retryWait)
      ensures asserts <==> AssertHolds(old(View()), Failed(c))
    {
      var k := c.name;
      if k !in propagatedEntries {
        return true;
      }
      asserts := propagatedEntries[k].status == Propagating;
      var timer := RetryTimer(c.signer, NextWait(cfg, c.retryWait));
      propagatedEntries := propagatedEntries[k := propagatedEntries[k].(status := PropagateFail, timer := timer)];
    }

    method AfterRevokeSucceed(c: Command) returns (asserts: bool)
      requires c.Withdraw?
      modifies this`propagatedEntries, this`sent
      ensures View() == WithRevoked(old(View()), c.name, c.signer, cfg.baseRetryWait)
      ensures asserts <==> AssertHolds(old(View()), Revoked(c))
    {
      var k := c.name;
      asserts := true;
      if k in propagatedEntries && propagatedEntries[k].status != PropagateFail {
        asserts := propagatedEntries[k].status != New;
        StartPropagation(k);
        SendCommand(Advertise(k, c.signer, cfg.baseRetryWait));
      }
    }

    /** The timer fires once, with what it is bound to. */
    method TakeTimer(k: Name) returns (timer: Timer)
      requires k in propagatedEntries
      modifies this`propagatedEntries
      ensures timer == old(propagatedEntries)[k].timer && View() == Fired(old(View()), k)
    {
      timer := propagatedEntries[k].timer;
      propagatedEntries := propagatedEntries[k := propagatedEntries[k].(timer := NoTimer)];
    }

    /** The timer of an entry goes with it, so the entry is there when it fires. */
    method OnRefreshTimer(k: Name, rib: seq<Name>) returns (asserts: bool)
      requires k in propagatedEntries && propagatedEntries[k].timer.RefreshTimer? && CanRedo(cfg.identities, k)
      modifies this`propagatedEntries, this`sent
      ensures View() ==
              Redone(cfg, Fired(old(View()), k), k, old(propagatedEntries)[k].timer.signer, cfg.baseRetryWait, rib)
      ensures asserts <==> AssertHolds(old(View()), Refresh(k))
    {
      var timer := TakeTimer(k);
      asserts := propagatedEntries[k].status == Propagated;
      RedoPropagation(k, timer.signer, cfg.baseRetryWait, rib);
    }

    method OnRetryTimer(k: Name, rib: seq<Name>) returns (asserts: bool)
      requires k in propagatedEntries && propagatedEntries[k].timer.RetryTimer? && CanRedo(cfg.identities, k)
      modifies this`propagatedEntries, this`sent
      ensures var timer := old(propagatedEntries)[k].timer;
              View() == Redone(cfg, Fired(old(View()), k), k, timer.signer, timer.wait, rib)
      ensures asserts <==> AssertHolds(old(View()), Retry(k))
    {
      var timer := TakeTimer(k);
      asserts := propagatedEntries[k].status == PropagateFail;
      RedoPropagation(k, timer.signer, timer.wait, rib);
    }
  }
}
