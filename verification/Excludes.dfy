/** The Exclude selector: its class, and runs of its operations (exclude.cpp). */
module Excludes {
  import opened Wrappers
  import opened Components
  import opened ExcludeMaps
  import opened ExcludeRanges
  import opened ExcludeWires

  /** The end of a range, looked up after its start was set. */
  lemma NewToPosition(e: seq<Entry>, m: seq<Entry>, from: Key, to: Component)
    requires EntriesOk(e) && EntriesOk(m) && KeyLess(from, Comp(to)) && LowerBound(e, from) < |m|
    requires m[..LowerBound(e, from)] == e[..LowerBound(e, from)] && m[LowerBound(e, from)..] == Opened(e, from)
    requires Opened(e, from)[0].key == from || KeyLess(Opened(e, from)[0].key, from)
    ensures var t, f := LowerBound(m, Comp(to)), LowerBound(e, from);
            t == LowerBound(e, Comp(to)) <= f &&
            (if t == f then m[t].key != Comp(to) else m[t] == e[t]) &&
            (m[t].key == Comp(to) ==> e[t].key == Comp(to))
  {
    var t, f := LowerBound(e, Comp(to)), LowerBound(e, from);
    EndsInOrder(e, from, to);
    assert forall j :: 0 <= j < f ==> m[j] == m[..f][j] == e[j];
    assert m[f] == m[f..][0];
    KeyLessTransitive(m[f].key, from, Comp(to));
    KeyLessTotal(m[f].key, Comp(to));
    LowerBoundUnique(m, Comp(to), t);
  }

  /** The whole map after a range was opened. */
  function OpenedAbove(e: seq<Entry>, from: Key): seq<Entry> {
    e[..LowerBound(e, from)] + Opened(e, from)
  }

  lemma OpenedAboveOk(e: seq<Entry>, from: Key)
    requires EntriesOk(e) && (from.Comp? ==> IsValid(from.c))
    ensures var m, f := OpenedAbove(e, from), LowerBound(e, from);
            EntriesOk(m) && f < |m| && m[..f] == e[..f] && m[f..] == Opened(e, from)
  {
    var f, low := LowerBound(e, from), Opened(e, from);
    OpenedOk(e, from);
    if f > 0 {
      KeyLessTransitive(low[0].key, from, e[f - 1].key);
    }
    OkConcat(e[..f], low);
  }

  /** The three ways in which a range is opened. */
  lemma OpenedCases(e: seq<Entry>, from: Key)
    ensures var f := LowerBound(e, from);
            OpenedAbove(e, from) ==
            if f < |e| && e[f].any then e
            else if f < |e| && e[f].key == from then e[f := e[f].(any := true)]
            else Emplace(e, from, true)
  {
  }

  /** The map after a range that starts at position f was closed. */
  function ClosedAt(m: seq<Entry>, f: nat, to: Component): seq<Entry>
    requires f < |m| && LowerBound(m, Comp(to)) <= f
  {
    var t := LowerBound(m, Comp(to));
    m[..t] + (if t == f || !m[t].any then [Entry(Comp(to), false)] else []) + m[f..]
  }

  /** With or without an insertion, erasing up to the start of the range leaves the closed map. */
  lemma CloseSteps(m: seq<Entry>, f: nat, to: Component)
    requires f < |m| && LowerBound(m, Comp(to)) <= f && m[f].key != Comp(to)
    ensures var t, x := LowerBound(m, Comp(to)), Emplace(m, Comp(to), false);
            if t == f || !m[t].any then
              var from := if m[t].key != Comp(to) then f + 1 else f;
              from <= |x| && t < |x| && x[..t + 1] + x[from..] == ClosedAt(m, f, to)
            else m[..t] + m[f..] == ClosedAt(m, f, to)
  {
    var t, x := LowerBound(m, Comp(to)), Emplace(m, Comp(to), false);
    if m[t].key != Comp(to) {
      InsertedParts(m, t, f, Entry(Comp(to), false));
    } else if !m[t].any {
      assert x == m;
      TakeLast(m, t);
    }
  }

  lemma InsertedParts(m: seq<Entry>, t: nat, f: nat, z: Entry)
    requires t <= f <= |m|
    ensures var x := m[..t] + [z] + m[t..]; x[..t + 1] == m[..t] + [z] && x[f + 1..] == m[f..]
  {
  }

  lemma TakeLast(m: seq<Entry>, t: nat)
    requires t < |m|
    ensures m[..t + 1] == m[..t] + [m[t]]
  {
  }

  /** Opening and closing a range amounts to WithRange. */
  lemma RangeAssembled(e: seq<Entry>, m: seq<Entry>, from: Key, to: Component)
    requires EntriesOk(e) && EntriesOk(m) && KeyLess(from, Comp(to)) && IsValid(to) && (from.Comp? ==> IsValid(from.c))
    requires LowerBound(e, from) < |m|
    requires m[..LowerBound(e, from)] == e[..LowerBound(e, from)] && m[LowerBound(e, from)..] == Opened(e, from)
    ensures LowerBound(m, Comp(to)) <= LowerBound(e, from) && m[LowerBound(e, from)].key != Comp(to)
    ensures ClosedAt(m, LowerBound(e, from), to) == WithRange(e, from, to) && EntriesOk(WithRange(e, from, to))
  {
    var t, f := LowerBound(e, Comp(to)), LowerBound(e, from);
    RangeKeeps(e, from, to);
    OpenedOk(e, from);
    NewToPosition(e, m, from, to);
    assert m[f] == Opened(e, from)[0];
    KeyLessTransitive(m[f].key, from, Comp(to));
    KeyLessTotal(m[f].key, Comp(to));
    SameStart(e, m, t, f);
    assert OpenAt(e, from, to) <==> !(t == f || !m[t].any);
    Regroup(e[..t], if OpenAt(e, from, to) then [] else [Entry(Comp(to), false)], Opened(e, from));
  }

  lemma SameStart(a: seq<Entry>, b: seq<Entry>, t: nat, f: nat)
    requires t <= f <= |a| && f <= |b| && a[..f] == b[..f]
    ensures a[..t] == b[..t] && forall i :: 0 <= i < f ==> a[i] == b[i]
  {
    assert a[..t] == a[..f][..t];
    assert forall i :: 0 <= i < f ==> a[i] == a[..f][i];
  }

  lemma Regroup(a: seq<Entry>, b: seq<Entry>, c: seq<Entry>)
    ensures a + b + c == a + (b + c)
  {
  }

  /** The i-th entry comes before those that are in the buffer: first its ANY mark is prepended, then its component. */
  lemma NextPrepended(e: seq<Entry>, i: nat, buffer: seq<Element>)
    requires i < |e|
    ensures var marked := if e[i].any then [ANY_ELEMENT] + buffer else buffer;
            Elements(e[i..]) + buffer ==
            Elements(e[i + 1..]) + if e[i].key.NegInf? then marked else [ElementOf(e[i].key.c)] + marked
  {
    assert e[i..][1..] == e[i + 1..];
  }

  class Exclude {
    var entries: seq<Entry>
    var wire: Option<seq<Element>>

    ghost predicate Valid()
      reads this
    {
      EntriesOk(entries)
    }

    /** A cached wire form decodes to the entries. */
    ghost predicate CacheOk()
      reads this
    {
      wire.Some? ==> Decode(wire.value) == Ok(entries)
    }

    constructor ()
      ensures Valid() && CacheOk() && entries == [] && wire == None
    {
      entries, wire := [], None;
    }

    method IsExcluded(comp: Component) returns (r: bool)
      requires Valid()
      ensures r <==> Excluded(entries, comp)
    {
      var lb := LowerBound(entries, Comp(comp));
      r := lb < |entries| && (entries[lb].any || (!entries[lb].key.NegInf? && entries[lb].key.c == comp));
    }

    method ExcludeOne(comp: Component)
      requires Valid() && CacheOk() && IsValid(comp)
      modifies this
      ensures Valid() && CacheOk()
      ensures entries == if Excluded(old(entries), comp) then old(entries) else Emplace(old(entries), Comp(comp), false)
      ensures forall c :: Excluded(entries, c) <==> Excluded(old(entries), c) || c == comp
      ensures RangesCombined(old(entries)) ==> RangesCombined(entries)
    {
      var excluded := IsExcluded(comp);
      if !excluded {
        OneKeeps(entries, comp);
        forall c
          ensures Excluded(Emplace(entries, Comp(comp), false), c) <==> Excluded(entries, c) || c == comp
        {
          OneEffect(entries, comp, c);
        }
        entries := Emplace(entries, Comp(comp), false);
        wire := None;
      }
    }

    /** The start of a range: an existing ANY serves, otherwise one is set. Returns the position of the entry. */
    method OpenRange(from: Key) returns (newFrom: nat)
      requires Valid() && (from.Comp? ==> IsValid(from.c))
      modifies this`entries
      ensures Valid() && newFrom == old(LowerBound(entries, from)) && entries == OpenedAbove(old(entries), from)
    {
      OpenedAboveOk(entries, from);
      OpenedCases(entries, from);
      newFrom := LowerBound(entries, from);
      if newFrom == |entries| || !entries[newFrom].any {
        var isNewEntry := !(newFrom < |entries| && entries[newFrom].key == from);
        entries := Emplace(entries, from, true);
        if !isNewEntry {
          entries := entries[newFrom := entries[newFrom].(any := true)];
        }
      }
    }

    method ExcludeBefore(to: Component)
      requires Valid() && IsValid(to)
      modifies this
      ensures Valid() && wire == None && entries == WithRange(old(entries), NegInf, to)
    {
      var _ := ExcludeRangeFrom(NegInf, to);
    }

    method ExcludeRange(from: Component, to: Component) returns (r: Result<()>)
      requires Valid() && IsValid(from) && IsValid(to)
      modifies this
      ensures Valid()
      ensures r == if Components.Less(from, to) then Ok(()) else Err(InvalidExcludeRange)
      ensures r.Ok? ==> wire == None && entries == WithRange(old(entries), Comp(from), to)
      ensures r.Err? ==> wire == old(wire) && entries == old(entries)
    {
      r := ExcludeRangeFrom(Comp(from), to);
    }

    method ExcludeRangeFrom(from: Key, to: Component) returns (r: Result<()>)
      requires Valid() && IsValid(to) && (from.Comp? ==> IsValid(from.c))
      modifies this
      ensures Valid()
      ensures r == if KeyLess(from, Comp(to)) then Ok(()) else Err(InvalidExcludeRange)
      ensures r.Ok? ==> wire == None && entries == WithRange(old(entries), from, to)
      ensures r.Err? ==> wire == old(wire) && entries == old(entries)
    {
      if !from.NegInf? {
        CompareSign(from.c, to);
        if Components.Compare(from.c, to) >= 0 {
          LessTotal(from.c, to);
          return Err(InvalidExcludeRange);
        }
      }
      ghost var e := entries;
      OpenedAboveOk(e, from);
      RangeAssembled(e, OpenedAbove(e, from), from, to);
      var newFrom := OpenRange(from);
      CloseRange(newFrom, to);
      wire := None;
      r := Ok(());
    }

    /** The end of a range: an existing ANY serves, otherwise the component is set; what lies between is erased. */
    method CloseRange(newFrom: nat, to: Component)
      requires newFrom < |entries| && LowerBound(entries, Comp(to)) <= newFrom && entries[newFrom].key != Comp(to)
      modifies this`entries
      ensures entries == ClosedAt(old(entries), newFrom, to)
    {
      CloseSteps(entries, newFrom, to);
      var newTo := LowerBound(entries, Comp(to));
      var from := newFrom;
      if newTo == from || !entries[newTo].any {
        // The iterator to the start of the range stays with its entry when one is inserted before it.
        if entries[newTo].key != Comp(to) {
          from := from + 1;
        }
        entries := Emplace(entries, Comp(to), false);
        newTo := newTo + 1;
      }
      entries := entries[..newTo] + entries[from..];
    }

    method ExcludeAfter(from: Component)
      requires Valid() && IsValid(from)
      modifies this
      ensures Valid() && wire == None && entries == Opened(old(entries), Comp(from))
    {
      AfterKeeps(entries, from);
      OpenedAboveOk(entries, Comp(from));
      var newFrom := OpenRange(Comp(from));
      entries := entries[newFrom..];
      wire := None;
    }

    /** The cached form if there is one; otherwise the entries, each prepended in map order. */
    method WireEncode() returns (r: Result<seq<Element>>)
      requires Valid() && CacheOk()
      modifies this`wire
      ensures Valid() && CacheOk()
      ensures r.Err? <==> entries == [] && old(wire).None?
      ensures r.Err? ==> r.error == EmptyExclude
      ensures r.Ok? ==> Decode(r.value) == Ok(entries) && wire == Some(r.value)
      ensures r.Ok? && old(wire).None? ==> r.value == Elements(entries)
    {
      if wire.Some? {
        return Ok(wire.value);
      }
      if entries == [] {
        return Err(EmptyExclude);
      }
      var buffer: seq<Element> := [];
      var i := 0;
      while i < |entries|
        invariant i <= |entries|
        invariant Elements(entries) == Elements(entries[i..]) + buffer
      {
        NextPrepended(entries, i, buffer);
        if entries[i].any {
          buffer := [ANY_ELEMENT] + buffer;
        }
        if !entries[i].key.NegInf? {
          buffer := [ElementOf(entries[i].key.c)] + buffer;
        }
        i := i + 1;
      }
      assert Elements([]) + buffer == buffer;
      RoundTrip(entries);
      wire := Some(buffer);
      r := Ok(buffer);
    }

    method Clear()
      modifies this
      ensures entries == [] && wire == None
    {
      entries, wire := [], None;
    }

    /** After an exception the entries read so far stay, next to a cached form that they do not match. */
    method WireDecode(typ: nat, elements: seq<Element>) returns (r: Result<()>)
      modifies this
      ensures Valid()
      ensures typ != TLV_EXCLUDE ==> r == Err(UnexpectedType) && entries == [] && wire == None
      ensures typ == TLV_EXCLUDE ==>
                wire == Some(elements) &&
                match Decode(elements)
                case Ok(e) => r == Ok(()) && entries == e && CacheOk()
                case Err(error) => r == Err(error)
    {
      Clear();
      if typ != TLV_EXCLUDE {
        return Err(UnexpectedType);
      }
      wire := Some(elements);
      if |elements| == 0 {
        return Err(EmptyExclude);
      }
      var i := 0;
      if elements[0].typ == TLV_ANY {
        EmplaceOk(entries, NegInf, true);
        entries := Emplace(entries, NegInf, true);
        assert entries == [Entry(NegInf, true)];
        i := 1;
      }
      assert Decode(elements) == DecodeRest(elements[i..], entries);
      while i < |elements|
        invariant i <= |elements| && Valid() && wire == Some(elements)
        invariant Decode(elements) == DecodeRest(elements[i..], entries)
      {
        var component := FromBlock(elements[i].typ, elements[i].value);
        if component.Err? {
          return Err(BadExcludeFormat);
        }
        EmplaceOk(entries, Comp(component.value), true);
        EmplaceOk(entries, Comp(component.value), false);
        i := i + 1;
        if i < |elements| && elements[i].typ == TLV_ANY {
          assert elements[i - 1..][2..] == elements[i + 1..];
          entries := Emplace(entries, Comp(component.value), true);
          i := i + 1;
        } else {
          assert elements[i - 1..][1..] == elements[i..];
          entries := Emplace(entries, Comp(component.value), false);
        }
      }
      r := Ok(());
    }
  }

  // ----- runs -----

  datatype Op =
    | One(c: Component)
    | Upto(to: Component)
    | Between(from: Component, to: Component)
    | Onward(from: Component)

  predicate OpValid(op: Op) {
    match op
    case One(c) => IsValid(c)
    case Upto(to) => IsValid(to)
    case Between(from, to) => IsValid(from) && IsValid(to)
    case Onward(from) => IsValid(from)
  }

  /** The map after a call; an invalid range changes nothing. */
  function Do(e: seq<Entry>, op: Op): seq<Entry> {
    match op
    case One(c) => if Excluded(e, c) then e else Emplace(e, Comp(c), false)
    case Upto(to) => WithRange(e, NegInf, to)
    case Between(from, to) => if Components.Less(from, to) then WithRange(e, Comp(from), to) else e
    case Onward(from) => Opened(e, Comp(from))
  }

  function DoAll(e: seq<Entry>, ops: seq<Op>): seq<Entry> {
    if |ops| == 0 then e else Do(DoAll(e, ops[..|ops| - 1]), ops[|ops| - 1])
  }

  /** What a call asks to exclude. */
  predicate Asked(op: Op, c: Component) {
    match op
    case One(d) => c == d
    case Upto(to) => InInterval(NegInf, c, to)
    case Between(from, to) => Components.Less(from, to) && InInterval(Comp(from), c, to)
    case Onward(from) => !Components.Less(c, from)
  }

  /** The call cuts off the rest of a range that encloses it. */
  predicate Cuts(e: seq<Entry>, op: Op)
    requires OpValid(op)
  {
    match op
    case Upto(to) => Truncates(e, NegInf, to)
    case Between(from, to) => Components.Less(from, to) && Truncates(e, Comp(from), to)
    case _ => false
  }

  /** The call starts a range where another one ends. */
  predicate Touches(e: seq<Entry>, op: Op) {
    match op
    case Between(from, to) => Components.Less(from, to) && Abuts(e, Comp(from))
    case Onward(from) => Abuts(e, Comp(from))
    case _ => false
  }

  /** Each call excludes exactly what it is asked to, on top of what was excluded, unless it cuts an enclosing range. */
  lemma CallExact(e: seq<Entry>, op: Op)
    requires EntriesOk(e) && OpValid(op)
    ensures (forall c :: IsValid(c) ==> (Excluded(Do(e, op), c) <==> Excluded(e, c) || Asked(op, c))) <==> !Cuts(e, op)
  {
    match op
    case One(d) =>
      forall c
        ensures Excluded(Do(e, op), c) <==> Excluded(e, c) || c == d
      {
        if !Excluded(e, d) {
          OneEffect(e, d, c);
        }
      }
    case Upto(to) => RangeExact(e, NegInf, to);
    case Between(from, to) =>
      if Components.Less(from, to) {
        RangeExact(e, Comp(from), to);
      }
    case Onward(from) =>
      forall c
        ensures Excluded(Do(e, op), c) <==> Excluded(e, c) || !Components.Less(c, from)
      {
        AfterEffect(e, from, c);
      }
  }

  /** Each call keeps the map in order, and keeps consecutive ranges combined unless it touches the end of one. */
  lemma CallKeeps(e: seq<Entry>, op: Op)
    requires EntriesOk(e) && OpValid(op)
    ensures EntriesOk(Do(e, op))
    ensures RangesCombined(e) ==> (RangesCombined(Do(e, op)) <==> !Touches(e, op))
  {
    match op
    case One(c) =>
      if !Excluded(e, c) {
        OneKeeps(e, c);
      }
    case Upto(to) =>
      RangeKeeps(e, NegInf, to);
      NothingBelowInfinity(e);
    case Between(from, to) =>
      if Components.Less(from, to) {
        RangeKeeps(e, Comp(from), to);
      }
    case Onward(from) => AfterKeeps(e, from);
  }

  lemma NothingBelowInfinity(e: seq<Entry>)
    requires Sorted(e)
    ensures !Abuts(e, NegInf)
  {
  }

  /** Any union of what the calls of a run ask for. */
  predicate AskedBy(ops: seq<Op>, c: Component) {
    exists i :: 0 <= i < |ops| && Asked(ops[i], c)
  }

  predicate OpsValid(ops: seq<Op>) {
    forall i :: 0 <= i < |ops| ==> OpValid(ops[i])
  }

  lemma {:induction false} RunOk(ops: seq<Op>)
    requires OpsValid(ops)
    ensures EntriesOk(DoAll([], ops))
  {
    if |ops| > 0 {
      var k := |ops| - 1;
      RunOk(ops[..k]);
      CallKeeps(DoAll([], ops[..k]), ops[k]);
    }
  }

  /** After the calls, the filter excludes exactly what some of them asked for. */
  ghost predicate ExactAfter(ops: seq<Op>) {
    forall c :: IsValid(c) ==> (Excluded(DoAll([], ops), c) <==> AskedBy(ops, c))
  }

  /** When the filter is exact after k calls, it is exact after one more if and only if that cuts no enclosing range. */
  lemma NextExact(ops: seq<Op>, k: nat)
    requires k < |ops| && OpsValid(ops) && ExactAfter(ops[..k])
    ensures ExactAfter(ops[..k + 1]) <==> !Cuts(DoAll([], ops[..k]), ops[k])
  {
    var before := DoAll([], ops[..k]);
    assert ops[..k + 1][..k] == ops[..k];
    RunOk(ops[..k]);
    CallExact(before, ops[k]);
    forall c | IsValid(c)
      ensures AskedBy(ops[..k + 1], c) <==> Excluded(before, c) || Asked(ops[k], c)
    {
      AskedByLast(ops[..k + 1], c);
      assert Excluded(before, c) <==> AskedBy(ops[..k], c);
    }
  }

  /**
   * From the empty filter, exactly what was asked for is excluded throughout a run of calls, if and only if no call
   * cuts an enclosing range.
   */
  lemma RunExact(ops: seq<Op>)
    requires OpsValid(ops)
    ensures (forall j :: 0 <= j <= |ops| ==> ExactAfter(ops[..j])) <==>
              forall i :: 0 <= i < |ops| ==> !Cuts(DoAll([], ops[..i]), ops[i])
  {
    var good := j => 0 <= j <= |ops| && ExactAfter(ops[..j]);
    var bad := i => 0 <= i < |ops| && Cuts(DoAll([], ops[..i]), ops[i]);
    forall k | 0 <= k < |ops| && good(k)
      ensures good(k + 1) <==> !bad(k)
    {
      NextExact(ops, k);
    }
    Throughout(good, bad, |ops|);
    assert forall j :: 0 <= j <= |ops| ==> (good(j) <==> ExactAfter(ops[..j]));
    assert forall i :: 0 <= i < |ops| ==> (bad(i) <==> Cuts(DoAll([], ops[..i]), ops[i]));
  }

  lemma AskedByLast(ops: seq<Op>, c: Component)
    requires |ops| > 0
    ensures AskedBy(ops, c) <==> AskedBy(ops[..|ops| - 1], c) || Asked(ops[|ops| - 1], c)
  {
  }

  /** After the calls, the iterator goes through all ranges without failing its assert. */
  predicate EnumerableAfter(ops: seq<Op>) {
    Walk(DoAll([], ops), |DoAll([], ops)|).Some?
  }

  lemma NextEnumerable(ops: seq<Op>, k: nat)
    requires k < |ops| && OpsValid(ops) && EnumerableAfter(ops[..k])
    ensures EnumerableAfter(ops[..k + 1]) <==> !Touches(DoAll([], ops[..k]), ops[k])
  {
    assert ops[..k + 1][..k] == ops[..k];
    RunOk(ops[..k]);
    RunOk(ops[..k + 1]);
    EnumerationExact(DoAll([], ops[..k]));
    EnumerationExact(DoAll([], ops[..k + 1]));
    CallKeeps(DoAll([], ops[..k]), ops[k]);
  }

  /** The iterator never fails its assert throughout a run of calls, if and only if no call touches a range's end. */
  lemma RunEnumerable(ops: seq<Op>)
    requires OpsValid(ops)
    ensures (forall j :: 0 <= j <= |ops| ==> EnumerableAfter(ops[..j])) <==>
              forall i :: 0 <= i < |ops| ==> !Touches(DoAll([], ops[..i]), ops[i])
  {
    var good := j => 0 <= j <= |ops| && EnumerableAfter(ops[..j]);
    var bad := i => 0 <= i < |ops| && Touches(DoAll([], ops[..i]), ops[i]);
    EnumerationExact(DoAll([], ops[..0]));
    forall k | 0 <= k < |ops| && good(k)
      ensures good(k + 1) <==> !bad(k)
    {
      NextEnumerable(ops, k);
    }
    Throughout(good, bad, |ops|);
    assert forall j :: 0 <= j <= |ops| ==> (good(j) <==> EnumerableAfter(ops[..j]));
    assert forall i :: 0 <= i < |ops| ==> (bad(i) <==> Touches(DoAll([], ops[..i]), ops[i]));
  }

  // ----- runs on the class -----

  method Perform(exclude: Exclude, op: Op)
    requires exclude.Valid() && exclude.CacheOk() && OpValid(op)
    modifies exclude
    ensures exclude.Valid() && exclude.CacheOk() && exclude.entries == Do(old(exclude.entries), op)
  {
    match op
    case One(c) => exclude.ExcludeOne(c);
    case Upto(to) => exclude.ExcludeBefore(to);
    case Between(from, to) => var _ := exclude.ExcludeRange(from, to);
    case Onward(from) => exclude.ExcludeAfter(from);
  }

  /** The calls in order on a new filter. */
  method Replay(ops: seq<Op>) returns (exclude: Exclude)
    requires OpsValid(ops)
    ensures exclude.Valid() && exclude.CacheOk() && exclude.entries == DoAll([], ops)
  {
    exclude := new Exclude();
    var i := 0;
    while i < |ops|
      invariant i <= |ops| && fresh(exclude)
      invariant exclude.Valid() && exclude.CacheOk() && exclude.entries == DoAll([], ops[..i])
    {
      assert ops[..i + 1][..i] == ops[..i];
      Perform(exclude, ops[i]);
      i := i + 1;
    }
    assert ops[..i] == ops;
  }

  /** Asked after a run of calls that cut no enclosing range, the filter excludes what some call asked for. */
  method ReplayAndAsk(ops: seq<Op>, c: Component) returns (r: bool)
    requires IsValid(c) && OpsValid(ops) && forall i :: 0 <= i < |ops| ==> !Cuts(DoAll([], ops[..i]), ops[i])
    ensures r <==> AskedBy(ops, c)
  {
    var exclude := Replay(ops);
    RunExact(ops);
    assert ops[..|ops|] == ops && ExactAfter(ops);
    r := exclude.IsExcluded(c);
  }

  const LOW := Component(NAME_COMPONENT, [98])
  const MID := Component(NAME_COMPONENT, [99])
  const HIGH := Component(NAME_COMPONENT, [100])

  lemma TwoCalls(a: Op, b: Op)
    ensures DoAll([], [a, b]) == Do(Do([], a), b)
  {
    assert [a, b][..1] == [a] && [a][..0] == [];
    assert DoAll([], [a]) == Do(DoAll([], []), a);
  }

  lemma ExampleOrder()
    ensures Less(LOW, MID) && Less(MID, HIGH) && Less(LOW, HIGH)
  {
    assert DiffersFirst(LOW.value, MID.value, 0) && DiffersFirst(MID.value, HIGH.value, 0) &&
           DiffersFirst(LOW.value, HIGH.value, 0);
  }

  /** excludeBefore("b") and excludeRange("b", "d") leave two ranges that share "b": enumeration fails the assert. */
  lemma TouchingExample()
    ensures var e := DoAll([], [Upto(LOW), Between(LOW, HIGH)]); !RangesCombined(e) && Walk(e, |e|).None?
  {
    TwoCalls(Upto(LOW), Between(LOW, HIGH));
    ExampleOrder();
    BeforeLow();
    var e1 := Do([], Upto(LOW));
    CallKeeps(e1, Between(LOW, HIGH));
    EnumerationExact(Do(e1, Between(LOW, HIGH)));
  }

  lemma BeforeLow()
    ensures var e := Do([], Upto(LOW)); EntriesOk(e) && RangesCombined(e) && Abuts(e, Comp(LOW))
  {
    var e := Do([], Upto(LOW));
    assert e == [Entry(Comp(LOW), false), Entry(NegInf, true)];
    KeyLessTotal(Comp(LOW), Comp(LOW));
    assert LowerBound(e, Comp(LOW)) == 0;
  }

  /** excludeAfter("b") and excludeRange("b", "c") leave "d" accepted. */
  lemma CuttingExample()
    ensures var e := DoAll([], [Onward(LOW), Between(LOW, MID)]); !Excluded(e, HIGH) && Asked(Onward(LOW), HIGH)
  {
    TwoCalls(Onward(LOW), Between(LOW, MID));
    ExampleOrder();
    var e1 := Do([], Onward(LOW));
    assert e1 == [Entry(Comp(LOW), true)];
    KeyLessTotal(Comp(LOW), Comp(LOW));
    KeyLessTotal(Comp(LOW), Comp(MID));
    KeyLessTotal(Comp(LOW), Comp(HIGH));
    RangeEffect(e1, Comp(LOW), MID, HIGH);
    assert Lost(e1, Comp(LOW), MID, HIGH);
  }
}
