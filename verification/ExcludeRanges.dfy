/** The iterator over the ranges of an Exclude selector (exclude.hpp, exclude.cpp). */
module ExcludeRanges {
  import opened Wrappers
  import opened Components
  import opened ExcludeMaps

  /** Bounds are inclusive; None stands for infinity. */
  datatype Range = Range(from: Option<Component>, to: Option<Component>) {
    predicate Contains(c: Component) {
      (from.Some? ==> !Components.Less(c, from.value)) && (to.Some? ==> !Components.Less(to.value, c))
    }
  }

  /** All of a comes before all of b. */
  predicate Before(a: Range, b: Range) {
    a.to.Some? && b.from.Some? && Components.Less(a.to.value, b.from.value)
  }

  function Bound(k: Key): Option<Component> {
    if k.NegInf? then None else Some(k.c)
  }

  /** update: the range that the entry at position i opens; i counts from the greatest key. */
  function RangeAt(e: seq<Entry>, i: nat): Range
    requires i < |e|
  {
    if e[i].any then Range(Bound(e[i].key), if i == 0 then None else Bound(e[i - 1].key))
    else Range(Bound(e[i].key), Bound(e[i].key))
  }

  /** The forward iterator over ranges; it walks the map from the least key, that is, by falling position. */
  class RangeIterator {
    const entries: seq<Entry>
    var next: nat      // one more than the position of the current entry; 0 is the end
    var range: Range

    ghost predicate Valid()
      reads this
    {
      EntriesOk(entries) && next <= |entries| && (next > 0 ==> range == RangeAt(entries, next - 1))
    }

    constructor (entries: seq<Entry>)
      requires EntriesOk(entries)
      ensures Valid() && this.entries == entries && next == |entries|
    {
      this.entries := entries;
      next := |entries|;
      range := Range(None, None);
      new;
      Update();
    }

    method Update()
      requires EntriesOk(entries) && next <= |entries|
      modifies this`range
      ensures Valid()
    {
      if next == 0 {
        return;
      }
      var it := next - 1;
      if entries[it].any {
        range := range.(from := if entries[it].key.NegInf? then None else Some(entries[it].key.c));
        if it == 0 {
          range := range.(to := None);
        } else {
          KeyLessTotal(entries[it].key, entries[it - 1].key);
          range := range.(to := Some(entries[it - 1].key.c));
        }
      } else {
        assert !entries[it].key.NegInf?;
        range := Range(Some(entries[it].key.c), Some(entries[it].key.c));
      }
    }

    /** Step over the high end of a range; fails where the source asserts that consecutive ranges are combined. */
    method Next() returns (ok: bool)
      requires Valid() && next > 0
      modifies this
      ensures ok <==> !(old(next) > 1 && entries[old(next) - 1].any && entries[old(next) - 2].any)
      ensures ok ==> Valid() && next == After(entries, old(next))
    {
      var wasInRange := entries[next - 1].any;
      next := next - 1;
      ok := true;
      if wasInRange && next != 0 {
        if entries[next - 1].any {
          return false;
        }
        next := next - 1;
      }
      Update();
    }
  }

  /** The iterator's next position. */
  function After(e: seq<Entry>, next: nat): (r: nat)
    requires 0 < next <= |e|
    ensures r < next
  {
    if e[next - 1].any && next > 1 then next - 2 else next - 1
  }

  /** All ranges in the order of the iterator, from a position on; None if the source's assert fails on the way. */
  function Walk(e: seq<Entry>, next: nat): Option<seq<Range>>
    requires next <= |e|
    decreases next
  {
    if next == 0 then Some([])
    else if next > 1 && e[next - 1].any && e[next - 2].any then None
    else
      match Walk(e, After(e, next))
      case None => None
      case Some(rest) => Some([RangeAt(e, next - 1)] + rest)
  }

  function Prepend(done: seq<Range>, rest: Option<seq<Range>>): Option<seq<Range>> {
    match rest
    case None => None
    case Some(rs) => Some(done + rs)
  }

  lemma PrependStep(done: seq<Range>, x: Range, rest: Option<seq<Range>>)
    ensures Prepend(done, Prepend([x], rest)) == Prepend(done + [x], rest)
  {
    if rest.Some? {
      assert done + ([x] + rest.value) == done + [x] + rest.value;
    }
  }

  lemma PrependNothing(rest: Option<seq<Range>>)
    ensures Prepend([], rest) == rest
  {
    if rest.Some? {
      assert [] + rest.value == rest.value;
    }
  }

  lemma WalkStep(e: seq<Entry>, n: nat)
    requires 0 < n <= |e|
    ensures Walk(e, n) == if n > 1 && e[n - 1].any && e[n - 2].any then None
                          else Prepend([RangeAt(e, n - 1)], Walk(e, After(e, n)))
  {
  }

  /** From begin() to end(); None if the source's assert fails on the way. */
  method Enumerate(entries: seq<Entry>) returns (r: Option<seq<Range>>)
    requires EntriesOk(entries)
    ensures r == Walk(entries, |entries|)
  {
    var it := new RangeIterator(entries);
    var done: seq<Range> := [];
    PrependNothing(Walk(entries, |entries|));
    while it.next != 0
      invariant it.Valid() && it.entries == entries && fresh(it)
      invariant Walk(entries, |entries|) == Prepend(done, Walk(entries, it.next))
      decreases it.next
    {
      ghost var n := it.next;
      WalkStep(entries, n);
      PrependStep(done, it.range, Walk(entries, After(entries, n)));
      done := done + [it.range];
      var ok := it.Next();
      if !ok {
        return None;
      }
    }
    assert done + [] == done;
    r := Some(done);
  }

  ghost predicate CombinedUpTo(e: seq<Entry>, next: nat)
    requires next <= |e|
  {
    forall i, j :: 0 <= i < j < next && j == i + 1 ==> !(e[i].any && e[j].any)
  }

  /** The iterator's assert holds throughout exactly if consecutive ranges are combined. */
  lemma {:induction false} WalkSucceeds(e: seq<Entry>, next: nat)
    requires next <= |e|
    ensures Walk(e, next).Some? <==> CombinedUpTo(e, next)
    decreases next
  {
    if next > 0 && !(next > 1 && e[next - 1].any && e[next - 2].any) {
      WalkSucceeds(e, After(e, next));
    }
  }

  function StartKey(r: Range): Key {
    if r.from.Some? then Comp(r.from.value) else NegInf
  }

  /** Every range starts at the current key or above it. */
  lemma {:induction false} StartsAbove(e: seq<Entry>, next: nat, i: nat)
    requires Sorted(e) && 0 < next <= |e| && Walk(e, next).Some? && i < |Walk(e, next).value|
    ensures !KeyLess(StartKey(Walk(e, next).value[i]), e[next - 1].key)
    decreases next
  {
    var n := After(e, next);
    KeyLessTotal(e[next - 1].key, e[next - 1].key);
    if i > 0 {
      if n > 0 {
        StartsAbove(e, n, i - 1);
        KeyLessTransitive(StartKey(Walk(e, n).value[i - 1]), e[next - 1].key, e[n - 1].key);
      }
    }
  }

  lemma FloorAt(e: seq<Entry>, i: nat, c: Component)
    requires Sorted(e) && i < |e| && !KeyLess(Comp(c), e[i].key) && (i > 0 ==> KeyLess(Comp(c), e[i - 1].key))
    ensures Excluded(e, c) <==> e[i].any || e[i].key == Comp(c)
  {
    forall j | 0 <= j < i
      ensures KeyLess(Comp(c), e[j].key)
    {
      if j < i - 1 {
        KeyLessTransitive(Comp(c), e[i - 1].key, e[j].key);
      }
    }
    LowerBoundUnique(e, Comp(c), i);
  }

  predicate SomeContains(rs: seq<Range>, c: Component) {
    exists i :: 0 <= i < |rs| && rs[i].Contains(c)
  }

  lemma SomeContainsFront(x: Range, rest: seq<Range>, c: Component)
    ensures SomeContains([x] + rest, c) <==> x.Contains(c) || SomeContains(rest, c)
  {
    var rs := [x] + rest;
    assert rs[0] == x;
    if i :| 0 <= i < |rest| && rest[i].Contains(c) {
      assert rs[i + 1] == rest[i];
    }
    if i :| 0 < i < |rs| && rs[i].Contains(c) {
      assert rest[i - 1] == rs[i];
    }
  }

  lemma FirstRange(e: seq<Entry>, next: nat, c: Component)
    requires Sorted(e) && NegInfHasAny(e) && 0 < next <= |e|
    ensures var r := RangeAt(e, next - 1);
            r.Contains(c) <==> !KeyLess(Comp(c), e[next - 1].key) &&
                               if !e[next - 1].any then e[next - 1].key == Comp(c)
                               else next > 1 ==> !KeyLess(e[next - 2].key, Comp(c))
  {
    KeyLessTotal(e[next - 1].key, Comp(c));
  }

  /** From a position on, the ranges contain exactly the excluded components that are not below it. */
  lemma {:induction false} WalkMeaning(e: seq<Entry>, next: nat, c: Component)
    requires EntriesOk(e) && next <= |e| && Walk(e, next).Some?
    ensures SomeContains(Walk(e, next).value, c) <==> next > 0 && !KeyLess(Comp(c), e[next - 1].key) && Excluded(e, c)
    decreases next
  {
    if next > 0 {
      var n := After(e, next);
      WalkMeaning(e, n, c);
      FirstRange(e, next, c);
      SomeContainsFront(RangeAt(e, next - 1), Walk(e, n).value, c);
      StepMeaning(e, next, c);
    }
  }

  /** The first range ends before the next one starts. */
  lemma RangeEnds(e: seq<Entry>, next: nat, c: Component)
    requires Sorted(e) && NegInfHasAny(e) && 0 < next <= |e|
    requires After(e, next) > 0 && !KeyLess(Comp(c), e[After(e, next) - 1].key)
    ensures !RangeAt(e, next - 1).Contains(c) && !KeyLess(Comp(c), e[next - 1].key)
  {
    var n := After(e, next);
    FirstRange(e, next, c);
    KeyLessTransitive(Comp(c), e[next - 1].key, e[n - 1].key);
    KeyLessTotal(Comp(c), e[n - 1].key);
    if e[next - 1].any {
      KeyLessTransitive(Comp(c), e[next - 2].key, e[n - 1].key);
    }
  }

  lemma StepMeaning(e: seq<Entry>, next: nat, c: Component)
    requires EntriesOk(e) && 0 < next <= |e| && Walk(e, next).Some?
    ensures var n := After(e, next);
            !KeyLess(Comp(c), e[next - 1].key) && Excluded(e, c) <==>
              RangeAt(e, next - 1).Contains(c) || (n > 0 && !KeyLess(Comp(c), e[n - 1].key) && Excluded(e, c))
  {
    var n := After(e, next);
    if n > 0 && !KeyLess(Comp(c), e[n - 1].key) {
      RangeEnds(e, next, c);
    } else {
      GapMeaning(e, next, c);
    }
  }

  /** Between the current key and the key after the range, only the range is excluded. */
  lemma GapMeaning(e: seq<Entry>, next: nat, c: Component)
    requires EntriesOk(e) && 0 < next <= |e| && Walk(e, next).Some?
    requires After(e, next) > 0 ==> KeyLess(Comp(c), e[After(e, next) - 1].key)
    ensures !KeyLess(Comp(c), e[next - 1].key) && Excluded(e, c) <==> RangeAt(e, next - 1).Contains(c)
  {
    FirstRange(e, next, c);
    if !KeyLess(Comp(c), e[next - 1].key) {
      if next > 1 && !KeyLess(Comp(c), e[next - 2].key) {
        FloorAt(e, next - 2, c);
        KeyLessTotal(e[next - 2].key, Comp(c));
      } else {
        FloorAt(e, next - 1, c);
        if next > 1 {
          KeyLessTotal(e[next - 2].key, Comp(c));
        }
      }
    }
  }

  /** The ranges come in ascending order without overlap. */
  lemma {:induction false} WalkAscends(e: seq<Entry>, next: nat, i: nat, j: nat)
    requires EntriesOk(e) && next <= |e| && Walk(e, next).Some? && i < j < |Walk(e, next).value|
    ensures Before(Walk(e, next).value[i], Walk(e, next).value[j])
    decreases next
  {
    var n := After(e, next);
    if i > 0 {
      WalkAscends(e, n, i - 1, j - 1);
    } else {
      var r := Walk(e, n).value[j - 1];
      StartsAbove(e, n, j - 1);
      var last := if e[next - 1].any then e[next - 2].key else e[next - 1].key;
      KeyLessTransitive(last, e[n - 1].key, StartKey(r));
    }
  }

  /** The enumeration of a map without abutting ranges: ascending, disjoint, and in union what isExcluded accepts. */
  lemma EnumerationExact(e: seq<Entry>)
    requires EntriesOk(e)
    ensures Walk(e, |e|).Some? <==> RangesCombined(e)
    ensures Walk(e, |e|).Some? ==>
              (forall i, j :: 0 <= i < j < |Walk(e, |e|).value| ==>
               Before(Walk(e, |e|).value[i], Walk(e, |e|).value[j])) &&
              forall c :: SomeContains(Walk(e, |e|).value, c) <==> Excluded(e, c)
  {
    WalkSucceeds(e, |e|);
    if Walk(e, |e|).Some? {
      forall i, j | 0 <= i < j < |Walk(e, |e|).value|
        ensures Before(Walk(e, |e|).value[i], Walk(e, |e|).value[j])
      {
        WalkAscends(e, |e|, i, j);
      }
      forall c
        ensures SomeContains(Walk(e, |e|).value, c) <==> Excluded(e, c)
      {
        WalkMeaning(e, |e|, c);
        if |e| > 0 && KeyLess(Comp(c), e[|e| - 1].key) {
          BelowAll(e, c);
        }
      }
    }
  }

  lemma BelowAll(e: seq<Entry>, c: Component)
    requires Sorted(e) && |e| > 0 && KeyLess(Comp(c), e[|e| - 1].key)
    ensures !Excluded(e, c)
  {
    forall j | 0 <= j < |e|
      ensures KeyLess(Comp(c), e[j].key)
    {
      if j < |e| - 1 {
        KeyLessTransitive(Comp(c), e[|e| - 1].key, e[j].key);
      }
    }
  }
}
