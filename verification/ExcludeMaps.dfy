/** The map behind the Exclude selector, and what its operations do to the set it stands for (exclude.cpp). */
module ExcludeMaps {
  import opened Wrappers
  import opened Components

  /** A component, or negative infinity, which comes before every component. */
  datatype Key = NegInf | Comp(c: Component)

  /** A key is excluded itself, except negative infinity; with any set, so is all up to the next greater key. */
  datatype Entry = Entry(key: Key, any: bool)

  predicate KeyLess(a: Key, b: Key) {
    b.Comp? && (a.NegInf? || Components.Less(a.c, b.c))
  }

  lemma KeyLessTotal(a: Key, b: Key)
    ensures !KeyLess(a, a)
    ensures KeyLess(a, b) || a == b || KeyLess(b, a)
    ensures !(KeyLess(a, b) && KeyLess(b, a))
  {
    if a.Comp? && b.Comp? {
      Components.LessTotal(a.c, b.c);
    }
    if a.Comp? {
      Components.LessTotal(a.c, a.c);
    }
  }

  lemma KeyLessTransitive(a: Key, b: Key, c: Key)
    ensures KeyLess(a, b) && KeyLess(b, c) ==> KeyLess(a, c)
    ensures !KeyLess(b, a) && KeyLess(b, c) ==> KeyLess(a, c)
    ensures KeyLess(a, b) && !KeyLess(c, b) ==> KeyLess(a, c)
  {
    KeyLessTotal(a, b);
    KeyLessTotal(b, c);
    if a.Comp? && b.Comp? && c.Comp? {
      Components.LessTransitive(a.c, b.c, c.c);
    }
  }

  predicate Sorted(e: seq<Entry>) {
    forall i, j :: 0 <= i < j < |e| ==> KeyLess(e[j].key, e[i].key)
  }

  predicate NegInfHasAny(e: seq<Entry>) {
    forall i :: 0 <= i < |e| && e[i].key.NegInf? ==> e[i].any
  }

  predicate KeysValid(e: seq<Entry>) {
    forall i :: 0 <= i < |e| && e[i].key.Comp? ==> IsValid(e[i].key.c)
  }

  predicate EntriesOk(e: seq<Entry>) {
    Sorted(e) && NegInfHasAny(e) && KeysValid(e)
  }

  /** std::map::lower_bound in descending order: the first entry whose key is not greater. */
  function LowerBound(e: seq<Entry>, k: Key): (i: nat)
    ensures i <= |e|
    ensures forall j :: 0 <= j < i ==> KeyLess(k, e[j].key)
    ensures i < |e| ==> !KeyLess(k, e[i].key)
  {
    if |e| == 0 || !KeyLess(k, e[0].key) then 0 else 1 + LowerBound(e[1..], k)
  }

  lemma LowerBoundUnique(e: seq<Entry>, k: Key, i: nat)
    requires i <= |e| && (forall j :: 0 <= j < i ==> KeyLess(k, e[j].key)) && (i < |e| ==> !KeyLess(k, e[i].key))
    ensures LowerBound(e, k) == i
  {
  }

  /** The set of components that the map stands for: the nearest key from above decides. */
  predicate Excluded(e: seq<Entry>, c: Component) {
    var i := LowerBound(e, Comp(c));
    i < |e| && (e[i].any || e[i].key == Comp(c))
  }

  // ----- reading a map in pieces -----

  /** Some key of the piece is not greater than c. */
  predicate Reaches(e: seq<Entry>, c: Component) {
    LowerBound(e, Comp(c)) < |e|
  }

  lemma ExcludedConcat(hi: seq<Entry>, lo: seq<Entry>, c: Component)
    ensures Excluded(hi + lo, c) == if Reaches(hi, c) then Excluded(hi, c) else Excluded(lo, c)
  {
    var k := LowerBound(hi, Comp(c));
    if Reaches(hi, c) {
      LowerBoundUnique(hi + lo, Comp(c), k);
    } else {
      var m := LowerBound(lo, Comp(c));
      forall j | 0 <= j < |hi| + m
        ensures KeyLess(Comp(c), (hi + lo)[j].key)
      {
        assert j >= |hi| ==> (hi + lo)[j] == lo[j - |hi|];
      }
      LowerBoundUnique(hi + lo, Comp(c), |hi| + m);
    }
  }

  lemma ExcludedHead(x: Entry, lo: seq<Entry>, c: Component)
    ensures Excluded([x] + lo, c) == if KeyLess(Comp(c), x.key) then Excluded(lo, c) else x.any || x.key == Comp(c)
  {
    ExcludedConcat([x], lo, c);
    assert [x][1..] == [];
  }

  /** A piece with all keys greater than c says nothing about c. */
  lemma SkipPiece(hi: seq<Entry>, lo: seq<Entry>, c: Component)
    requires forall j :: 0 <= j < |hi| ==> KeyLess(Comp(c), hi[j].key)
    ensures Excluded(hi + lo, c) == Excluded(lo, c)
  {
    ExcludedConcat(hi, lo, c);
  }

  // ----- insertion -----

  /** std::map::emplace: a key that is there keeps its flag. */
  function Emplace(e: seq<Entry>, k: Key, any: bool): seq<Entry> {
    var i := LowerBound(e, k);
    if i < |e| && e[i].key == k then e else e[..i] + [Entry(k, any)] + e[i..]
  }

  lemma EmplaceSorted(e: seq<Entry>, k: Key, any: bool)
    requires Sorted(e)
    ensures Sorted(Emplace(e, k, any))
  {
    var i := LowerBound(e, k);
    if i < |e| {
      KeyLessTotal(e[i].key, k);
      forall j | i < j < |e|
        ensures e[i].key != k ==> KeyLess(e[j].key, k)
      {
        KeyLessTransitive(e[j].key, e[i].key, k);
      }
    }
  }

  // ----- the four operations as functions of the map -----

  /** From the start of a range down: the entry that opens it, with ANY, and what lies below. */
  function Opened(e: seq<Entry>, from: Key): seq<Entry> {
    var f := LowerBound(e, from);
    if f < |e| && e[f].any then e[f..]
    else if f < |e| && e[f].key == from then [Entry(from, true)] + e[f + 1..]
    else [Entry(from, true)] + e[f..]
  }

  /** A range is already open at `to` and started after `from`. */
  predicate OpenAt(e: seq<Entry>, from: Key, to: Component) {
    var t := LowerBound(e, Comp(to));
    t < LowerBound(e, from) && t < |e| && e[t].any
  }

  /** From the end of a range down. */
  function Closed(e: seq<Entry>, from: Key, to: Component): seq<Entry> {
    (if OpenAt(e, from, to) then [] else [Entry(Comp(to), false)]) + Opened(e, from)
  }

  function WithRange(e: seq<Entry>, from: Key, to: Component): seq<Entry> {
    e[..LowerBound(e, Comp(to))] + Closed(e, from, to)
  }

  /** from <= c <= to. */
  predicate InInterval(from: Key, c: Component, to: Component) {
    !KeyLess(Comp(c), from) && !Components.Less(to, c)
  }

  /** One range of e contains [from, to] and ends after to. */
  predicate InsideRange(e: seq<Entry>, from: Key, to: Component) {
    var f := LowerBound(e, from);
    LowerBound(e, Comp(to)) == f && f < |e| && e[f].any
  }

  /** c lies in the part of that range beyond `to`. */
  predicate Lost(e: seq<Entry>, from: Key, to: Component, c: Component) {
    var t := LowerBound(e, Comp(to));
    InsideRange(e, from, to) && Components.Less(to, c) && (t > 0 ==> KeyLess(Comp(c), e[t - 1].key))
  }

  lemma OpenedAt(e: seq<Entry>, from: Key, c: Component)
    requires Sorted(e)
    ensures Excluded(Opened(e, from), c) ==
            if KeyLess(Comp(c), from) then Excluded(e[LowerBound(e, from)..], c) else true
  {
    var f := LowerBound(e, from);
    if f < |e| && e[f].any {
      if !KeyLess(Comp(c), from) {
        NotLessThrough(Comp(c), from, e[f].key);
        ReadFirst(e[f..], c);
      }
    } else if f < |e| && e[f].key == from {
      ExcludedHead(Entry(from, true), e[f + 1..], c);
      assert e[f..] == [e[f]] + e[f + 1..];
      ExcludedHead(e[f], e[f + 1..], c);
    } else {
      ExcludedHead(Entry(from, true), e[f..], c);
    }
  }

  lemma NotLessThrough(a: Key, b: Key, c: Key)
    requires !KeyLess(a, b) && !KeyLess(b, c)
    ensures !KeyLess(a, c)
  {
    KeyLessTotal(a, b);
    KeyLessTotal(b, c);
    KeyLessTransitive(a, c, b);
    KeyLessTransitive(b, a, c);
  }

  /** A piece is read at its first entry if that key is not greater. */
  lemma ReadFirst(lo: seq<Entry>, c: Component)
    requires |lo| > 0 && !KeyLess(Comp(c), lo[0].key)
    ensures Excluded(lo, c) <==> lo[0].any || lo[0].key == Comp(c)
  {
    LowerBoundUnique(lo, Comp(c), 0);
  }

  /** Positions of the two ends of a range. */
  lemma EndsInOrder(e: seq<Entry>, from: Key, to: Component)
    requires KeyLess(from, Comp(to))
    ensures LowerBound(e, Comp(to)) <= LowerBound(e, from)
  {
    var t, f := LowerBound(e, Comp(to)), LowerBound(e, from);
    if f < t {
      KeyLessTransitive(from, Comp(to), e[f].key);
    }
  }

  lemma ClosedBeyond(e: seq<Entry>, from: Key, to: Component, c: Component)
    requires Sorted(e) && KeyLess(from, Comp(to)) && Components.Less(to, c)
    ensures Excluded(Closed(e, from, to), c) == OpenAt(e, from, to)
  {
    KeyLessTransitive(from, Comp(to), Comp(c));
    KeyLessTotal(Comp(c), Comp(to));
    KeyLessTotal(Comp(c), from);
    OpenedAt(e, from, c);
    ExcludedHead(Entry(Comp(to), false), Opened(e, from), c);
    assert [] + Opened(e, from) == Opened(e, from);
  }

  lemma LowBeyond(e: seq<Entry>, to: Component, c: Component)
    requires Components.Less(to, c)
    ensures var t := LowerBound(e, Comp(to)); Excluded(e[t..], c) <==> t < |e| && e[t].any
  {
    var t := LowerBound(e, Comp(to));
    if t < |e| {
      var k := e[t].key;
      assert KeyLess(k, Comp(c)) && !KeyLess(Comp(c), k) && k != Comp(c) by {
        KeyLessTransitive(k, Comp(to), Comp(c));
        KeyLessTotal(k, Comp(c));
      }
      ReadFirst(e[t..], c);
    }
  }

  /** What the new map says about the components beyond `to`. */
  lemma BeyondRange(e: seq<Entry>, from: Key, to: Component, c: Component)
    requires Sorted(e) && KeyLess(from, Comp(to)) && Components.Less(to, c)
    ensures Excluded(WithRange(e, from, to), c) <==> Excluded(e, c) && !Lost(e, from, to, c)
  {
    var t := LowerBound(e, Comp(to));
    EndsInOrder(e, from, to);
    SplitAtEnd(e, from, to, c);
    if Reaches(e[..t], c) {
      BeyondTop(e, t, c);
    } else {
      assert t > 0 ==> KeyLess(Comp(c), e[..t][t - 1].key);
      ClosedBeyond(e, from, to, c);
      LowBeyond(e, to, c);
    }
  }

  /** The entries above the end of the range decide for themselves; the rest is replaced. */
  lemma SplitAtEnd(e: seq<Entry>, from: Key, to: Component, c: Component)
    ensures var hi, lo := e[..LowerBound(e, Comp(to))], e[LowerBound(e, Comp(to))..];
            Excluded(e, c) == (if Reaches(hi, c) then Excluded(hi, c) else Excluded(lo, c)) &&
            Excluded(WithRange(e, from, to), c) ==
            if Reaches(hi, c) then Excluded(hi, c) else Excluded(Closed(e, from, to), c)
  {
    var hi, lo := e[..LowerBound(e, Comp(to))], e[LowerBound(e, Comp(to))..];
    Halves(e, LowerBound(e, Comp(to)));
    ExcludedConcat(hi, lo, c);
    ExcludedConcat(hi, Closed(e, from, to), c);
  }

  lemma Halves(e: seq<Entry>, t: nat)
    requires t <= |e|
    ensures e[..t] + e[t..] == e
  {
  }

  lemma BeyondTop(e: seq<Entry>, t: nat, c: Component)
    requires Sorted(e) && t <= |e| && Reaches(e[..t], c)
    ensures t > 0 && !KeyLess(Comp(c), e[t - 1].key)
  {
    var k := LowerBound(e[..t], Comp(c));
    assert !KeyLess(Comp(c), e[k].key);
    if k < t - 1 {
      KeyLessTransitive(e[t - 1].key, e[k].key, Comp(c));
      KeyLessTotal(e[t - 1].key, e[k].key);
      if KeyLess(Comp(c), e[t - 1].key) {
        KeyLessTransitive(Comp(c), e[t - 1].key, e[k].key);
      }
    }
  }

  lemma ClosedWithin(e: seq<Entry>, from: Key, to: Component, c: Component)
    requires Sorted(e) && KeyLess(from, Comp(to)) && !Components.Less(to, c)
    ensures Excluded(Closed(e, from, to), c) <==> c == to || Excluded(Opened(e, from), c)
  {
    KeyLessTotal(Comp(c), Comp(to));
    ExcludedHead(Entry(Comp(to), false), Opened(e, from), c);
    assert [] + Opened(e, from) == Opened(e, from);
    OpenedAt(e, from, c);
    KeyLessTotal(from, Comp(to));
  }

  /** Keys greater than k say nothing about components below k. */
  lemma SkipGreater(e: seq<Entry>, k: Key, lo: seq<Entry>, c: Component)
    requires KeyLess(Comp(c), k) || Comp(c) == k
    ensures Excluded(e[..LowerBound(e, k)] + lo, c) == Excluded(lo, c)
  {
    forall j | 0 <= j < LowerBound(e, k)
      ensures KeyLess(Comp(c), e[j].key)
    {
      KeyLessTransitive(Comp(c), k, e[j].key);
    }
    SkipPiece(e[..LowerBound(e, k)], lo, c);
  }

  lemma BelowFrom(e: seq<Entry>, from: Key, c: Component)
    requires KeyLess(Comp(c), from)
    ensures Excluded(e, c) == Excluded(e[LowerBound(e, from)..], c)
  {
    var f := LowerBound(e, from);
    SkipGreater(e, from, e[f..], c);
    assert e[..f] + e[f..] == e;
  }

  /** What the new map says about the components up to `to`. */
  lemma WithinRange(e: seq<Entry>, from: Key, to: Component, c: Component)
    requires Sorted(e) && KeyLess(from, Comp(to)) && !Components.Less(to, c)
    ensures Excluded(WithRange(e, from, to), c) <==> Excluded(e, c) || InInterval(from, c, to)
  {
    assert Excluded(WithRange(e, from, to), c) == Excluded(Closed(e, from, to), c) by {
      KeyLessTotal(Comp(c), Comp(to));
      SkipGreater(e, Comp(to), Closed(e, from, to), c);
    }
    ClosedWithin(e, from, to, c);
    OpenedAt(e, from, c);
    KeyLessTotal(from, Comp(to));
    if KeyLess(Comp(c), from) {
      BelowFrom(e, from, c);
    }
  }

  /** The exact effect of excludeRange on every component. */
  lemma RangeEffect(e: seq<Entry>, from: Key, to: Component, c: Component)
    requires Sorted(e) && KeyLess(from, Comp(to))
    ensures Excluded(WithRange(e, from, to), c) <==>
            (Excluded(e, c) || InInterval(from, c, to)) && !Lost(e, from, to, c)
  {
    if Components.Less(to, c) {
      BeyondRange(e, from, to, c);
    } else {
      WithinRange(e, from, to, c);
      KeyLessTotal(Comp(c), Comp(to));
    }
  }

  /** The exact effect of excludeAfter. */
  lemma AfterEffect(e: seq<Entry>, from: Component, c: Component)
    requires Sorted(e)
    ensures Excluded(Opened(e, Comp(from)), c) <==> Excluded(e, c) || !Components.Less(c, from)
  {
    OpenedAt(e, Comp(from), c);
    if Components.Less(c, from) {
      BelowFrom(e, Comp(from), c);
    }
  }

  lemma EmplaceParts(e: seq<Entry>, comp: Component)
    requires !Excluded(e, comp)
    ensures var i := LowerBound(e, Comp(comp));
            e == e[..i] + e[i..] && Emplace(e, Comp(comp), false) == e[..i] + ([Entry(Comp(comp), false)] + e[i..])
  {
  }

  /** The exact effect of excludeOne on a component that is not excluded yet. */
  lemma OneEffect(e: seq<Entry>, comp: Component, c: Component)
    requires Sorted(e) && !Excluded(e, comp)
    ensures Excluded(Emplace(e, Comp(comp), false), c) <==> Excluded(e, c) || c == comp
  {
    var i := LowerBound(e, Comp(comp));
    var hi, lo := e[..i], e[i..];
    EmplaceParts(e, comp);
    ExcludedConcat(hi, lo, c);
    ExcludedConcat(hi, [Entry(Comp(comp), false)] + lo, c);
    ExcludedHead(Entry(Comp(comp), false), lo, c);
    KeyLessTotal(Comp(c), Comp(comp));
    if Reaches(hi, c) {
      BeyondTop(e, i, c);
      KeyLessTotal(Comp(c), e[i - 1].key);
    } else if Components.Less(comp, c) && i < |e| {
      assert lo == [e[i]] + e[i + 1..];
      ExcludedHead(e[i], e[i + 1..], c);
      KeyLessTransitive(e[i].key, Comp(comp), Comp(c));
      KeyLessTotal(e[i].key, Comp(c));
    }
  }

  // ----- when a range is truncated -----

  /** The least component greater than c among those that a name can hold. */
  function NextValid(c: Component): (n: Component)
    requires IsValid(c)
    ensures IsValid(n)
  {
    var s := Component(c.typ, SuccessorValue(c.value));
    if IsValid(s) then s else Component(NAME_COMPONENT, [])
  }

  lemma NextValidIsNext(c: Component, z: Component)
    requires IsValid(c) && IsValid(z)
    ensures Components.Less(c, NextValid(c))
    ensures Components.Less(c, z) <==> z == NextValid(c) || Components.Less(NextValid(c), z)
  {
    SuccessorIsNext(c, z);
    LessTotal(NextValid(c), z);
  }

  /** Some component beyond `to` is lost: the enclosing range does not stop right after `to`. */
  predicate Truncates(e: seq<Entry>, from: Key, to: Component)
    requires IsValid(to)
  {
    var t := LowerBound(e, Comp(to));
    InsideRange(e, from, to) && (t > 0 ==> e[t - 1].key != Comp(NextValid(to)))
  }

  lemma LostExists(e: seq<Entry>, from: Key, to: Component)
    requires KeysValid(e) && IsValid(to)
    ensures Truncates(e, from, to) <==> exists c :: IsValid(c) && Lost(e, from, to, c)
  {
    var t, n := LowerBound(e, Comp(to)), NextValid(to);
    NextValidIsNext(to, n);
    if t > 0 {
      NextValidIsNext(to, e[t - 1].key.c);
      KeyLessTotal(Comp(n), e[t - 1].key);
      if c :| IsValid(c) && Lost(e, from, to, c) {
        NextValidIsNext(to, c);
        KeyLessTotal(Comp(c), e[t - 1].key);
      }
    }
    if Truncates(e, from, to) {
      assert Lost(e, from, to, n);
    }
  }

  /** excludeRange does exactly what it says unless it truncates an enclosing range. */
  lemma RangeExact(e: seq<Entry>, from: Key, to: Component)
    requires EntriesOk(e) && KeyLess(from, Comp(to)) && IsValid(to)
    ensures (forall c :: IsValid(c) ==>
             (Excluded(WithRange(e, from, to), c) <==> Excluded(e, c) || InInterval(from, c, to))) <==>
            !Truncates(e, from, to)
  {
    LostExists(e, from, to);
    forall c
      ensures Excluded(WithRange(e, from, to), c) <==>
              (Excluded(e, c) || InInterval(from, c, to)) && !Lost(e, from, to, c)
      ensures Lost(e, from, to, c) ==> Excluded(e, c)
    {
      RangeEffect(e, from, to, c);
      if Lost(e, from, to, c) {
        LostWasExcluded(e, from, to, c);
      }
    }
  }

  lemma LostWasExcluded(e: seq<Entry>, from: Key, to: Component, c: Component)
    requires Sorted(e) && Lost(e, from, to, c) && KeyLess(from, Comp(to))
    ensures Excluded(e, c)
  {
    var t := LowerBound(e, Comp(to));
    assert e == e[..t] + e[t..] && e[t..] == [e[t]] + e[t + 1..];
    ExcludedConcat(e[..t], e[t..], c);
    ExcludedHead(e[t], e[t + 1..], c);
    KeyLessTransitive(e[t].key, from, Comp(to));
    KeyLessTransitive(e[t].key, Comp(to), Comp(c));
    KeyLessTotal(e[t].key, Comp(c));
    if Reaches(e[..t], c) {
      BeyondTop(e, t, c);
    }
  }

  // ----- what every operation keeps -----

  /** No entry with ANY is followed by another one: consecutive ranges are combined. */
  ghost predicate RangesCombined(e: seq<Entry>) {
    forall i, j :: 0 <= i < j < |e| && j == i + 1 ==> !(e[i].any && e[j].any)
  }

  /** `from` is the high end of an existing range. */
  predicate Abuts(e: seq<Entry>, from: Key) {
    var f := LowerBound(e, from);
    f + 1 < |e| && e[f].key == from && !e[f].any && e[f + 1].any
  }

  lemma SortedConcat(hi: seq<Entry>, lo: seq<Entry>)
    requires Sorted(hi) && Sorted(lo) && (|hi| > 0 && |lo| > 0 ==> KeyLess(lo[0].key, hi[|hi| - 1].key))
    ensures Sorted(hi + lo)
  {
    forall i, j | 0 <= i < |hi| && 0 <= j < |lo|
      ensures KeyLess(lo[j].key, hi[i].key)
    {
      KeyLessTransitive(lo[j].key, lo[0].key, hi[|hi| - 1].key);
      KeyLessTransitive(lo[j].key, hi[|hi| - 1].key, hi[i].key);
    }
  }

  lemma OkConcat(hi: seq<Entry>, lo: seq<Entry>)
    requires EntriesOk(hi) && EntriesOk(lo) && (|hi| > 0 && |lo| > 0 ==> KeyLess(lo[0].key, hi[|hi| - 1].key))
    ensures EntriesOk(hi + lo)
  {
    SortedConcat(hi, lo);
  }

  lemma OpenedOk(e: seq<Entry>, from: Key)
    requires EntriesOk(e) && (from.Comp? ==> IsValid(from.c))
    ensures EntriesOk(Opened(e, from)) && |Opened(e, from)| > 0
    ensures Opened(e, from)[0].any && (Opened(e, from)[0].key == from || KeyLess(Opened(e, from)[0].key, from))
    ensures RangesCombined(e) ==> (RangesCombined(Opened(e, from)) <==> !Abuts(e, from))
  {
    var f := LowerBound(e, from);
    if f < |e| {
      KeyLessTotal(e[f].key, from);
      if f + 1 < |e| {
        KeyLessTransitive(e[f + 1].key, e[f].key, from);
      }
      if !e[f].any {
        SortedConcat([Entry(from, true)], if e[f].key == from then e[f + 1..] else e[f..]);
      }
    }
    if RangesCombined(e) {
      OpenedCombined(e, from);
    }
  }

  lemma OpenedCombined(e: seq<Entry>, from: Key)
    requires RangesCombined(e)
    ensures RangesCombined(Opened(e, from)) <==> !Abuts(e, from)
  {
    var f, low := LowerBound(e, from), Opened(e, from);
    if f < |e| && !e[f].any {
      var rest := if e[f].key == from then e[f + 1..] else e[f..];
      assert low == [Entry(from, true)] + rest && RangesCombined(rest);
      assert RangesCombined(low) <==> |rest| == 0 || !rest[0].any by {
        if |rest| > 0 {
          assert low[0].any && low[1] == rest[0];
        }
        forall i, j | 0 < i < j < |low| && j == i + 1
          ensures !(low[i].any && low[j].any)
        {
          assert low[i] == rest[i - 1] && low[j] == rest[j - 1];
        }
      }
    }
  }

  lemma ClosedOk(e: seq<Entry>, from: Key, to: Component)
    requires EntriesOk(e) && KeyLess(from, Comp(to)) && IsValid(to) && (from.Comp? ==> IsValid(from.c))
    ensures EntriesOk(Closed(e, from, to)) && |Closed(e, from, to)| > 0
    ensures Closed(e, from, to)[0].any == OpenAt(e, from, to)
    ensures !KeyLess(Comp(to), Closed(e, from, to)[0].key)
    ensures RangesCombined(e) ==> (RangesCombined(Closed(e, from, to)) <==> !Abuts(e, from))
  {
    var low := Opened(e, from);
    OpenedOk(e, from);
    assert KeyLess(low[0].key, Comp(to)) && !KeyLess(Comp(to), low[0].key) && !KeyLess(Comp(to), Comp(to)) by {
      KeyLessTransitive(low[0].key, from, Comp(to));
      KeyLessTotal(low[0].key, Comp(to));
      KeyLessTotal(Comp(to), Comp(to));
    }
    if OpenAt(e, from, to) {
      assert Closed(e, from, to) == low;
    } else {
      CombinedTail(Entry(Comp(to), false), low);
      SortedConcat([Entry(Comp(to), false)], low);
    }
  }

  lemma CombinedTail(x: Entry, low: seq<Entry>)
    requires !x.any
    ensures RangesCombined([x] + low) <==> RangesCombined(low)
  {
    var e := [x] + low;
    if RangesCombined(e) {
      forall i, j | 0 <= i < j < |low| && j == i + 1
        ensures !(low[i].any && low[j].any)
      {
        assert e[i + 1] == low[i] && e[j + 1] == low[j];
      }
    }
  }

  lemma CombinedConcat(hi: seq<Entry>, lo: seq<Entry>)
    requires RangesCombined(hi) && |lo| > 0 && (|hi| > 0 ==> !(hi[|hi| - 1].any && lo[0].any))
    ensures RangesCombined(hi + lo) <==> RangesCombined(lo)
  {
    var e := hi + lo;
    if RangesCombined(e) {
      forall i, j | 0 <= i < j < |lo| && j == i + 1
        ensures !(lo[i].any && lo[j].any)
      {
        assert e[|hi| + i] == lo[i] && e[|hi| + j] == lo[j];
      }
    }
  }

  /** excludeRange keeps consecutive ranges combined unless it starts where a range ends. */
  lemma RangeKeeps(e: seq<Entry>, from: Key, to: Component)
    requires EntriesOk(e) && KeyLess(from, Comp(to)) && IsValid(to) && (from.Comp? ==> IsValid(from.c))
    ensures EntriesOk(WithRange(e, from, to))
    ensures RangesCombined(e) ==> (RangesCombined(WithRange(e, from, to)) <==> !Abuts(e, from))
  {
    var t := LowerBound(e, Comp(to));
    ClosedOk(e, from, to);
    var low := Closed(e, from, to);
    if t > 0 {
      KeyLessTransitive(low[0].key, Comp(to), e[t - 1].key);
    }
    SortedConcat(e[..t], low);
    if RangesCombined(e) {
      assert RangesCombined(e[..t]);
      CombinedConcat(e[..t], low);
    }
  }

  lemma OneKeeps(e: seq<Entry>, comp: Component)
    requires EntriesOk(e) && !Excluded(e, comp) && IsValid(comp)
    ensures EntriesOk(Emplace(e, Comp(comp), false))
    ensures RangesCombined(e) ==> RangesCombined(Emplace(e, Comp(comp), false))
  {
    EmplaceSorted(e, Comp(comp), false);
  }

  lemma AfterKeeps(e: seq<Entry>, from: Component)
    requires EntriesOk(e) && IsValid(from)
    ensures EntriesOk(Opened(e, Comp(from)))
    ensures RangesCombined(e) ==> (RangesCombined(Opened(e, Comp(from))) <==> !Abuts(e, Comp(from)))
  {
    OpenedOk(e, Comp(from));
  }
}
