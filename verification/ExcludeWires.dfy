/** The wire form of an Exclude selector as a sequence of elements (exclude.cpp). */
module ExcludeWires {
  import opened Wrappers
  import opened Components
  import opened ExcludeMaps

  const TLV_EXCLUDE: nat := 16
  const TLV_ANY: nat := 19

  /** A TLV element inside the Exclude element. */
  datatype Element = Element(typ: nat, value: seq<byte>)

  const ANY_ELEMENT: Element := Element(TLV_ANY, [])

  function ElementOf(c: Component): Element {
    Element(c.typ, c.value)
  }

  /** One entry in wire order: the component, if any, then the ANY mark. */
  function EntryElements(x: Entry): seq<Element> {
    (if x.key.NegInf? then [] else [ElementOf(x.key.c)]) + if x.any then [ANY_ELEMENT] else []
  }

  /** The entries from the least key up. */
  function Elements(e: seq<Entry>): seq<Element> {
    if |e| == 0 then [] else Elements(e[1..]) + EntryElements(e[0])
  }

  /** Read one component and the ANY mark after it. */
  function DecodeRest(elements: seq<Element>, e: seq<Entry>): (r: Result<seq<Entry>>)
    requires EntriesOk(e)
    ensures r.Ok? ==> EntriesOk(r.value)
    decreases |elements|
  {
    if |elements| == 0 then Ok(e)
    else
      match FromBlock(elements[0].typ, elements[0].value)
      case Err(_) => Err(BadExcludeFormat)
      case Ok(c) =>
        EmplaceOk(e, Comp(c), true);
        EmplaceOk(e, Comp(c), false);
        if |elements| > 1 && elements[1].typ == TLV_ANY then DecodeRest(elements[2..], Emplace(e, Comp(c), true))
        else DecodeRest(elements[1..], Emplace(e, Comp(c), false))
  }

  /** The map that a sequence of elements stands for. */
  function Decode(elements: seq<Element>): (r: Result<seq<Entry>>)
    ensures r.Ok? ==> EntriesOk(r.value)
  {
    if |elements| == 0 then Err(EmptyExclude)
    else if elements[0].typ == TLV_ANY then DecodeRest(elements[1..], [Entry(NegInf, true)])
    else DecodeRest(elements, [])
  }

  lemma EmplaceOk(e: seq<Entry>, k: Key, any: bool)
    requires EntriesOk(e) && (if k.Comp? then IsValid(k.c) else any)
    ensures EntriesOk(Emplace(e, k, any))
  {
    EmplaceSorted(e, k, any);
  }

  lemma EmplaceFront(e: seq<Entry>, x: Entry)
    requires |e| > 0 ==> KeyLess(e[0].key, x.key)
    ensures Emplace(e, x.key, x.any) == [x] + e
  {
  }

  lemma SplitLow(hi: seq<Entry>, lo: seq<Entry>)
    requires |hi| > 0 && EntriesOk(hi + lo)
    ensures var x, rest := hi[|hi| - 1], hi[..|hi| - 1];
            hi + lo == rest + ([x] + lo) && (x.key.Comp? ==> IsValid(x.key.c)) &&
              (|lo| > 0 ==> KeyLess(lo[0].key, x.key))
  {
    var k := |hi| - 1;
    assert (hi + lo)[k] == hi[k] && (|lo| > 0 ==> (hi + lo)[k + 1] == lo[0]);
  }

  lemma LowOk(hi: seq<Entry>, lo: seq<Entry>)
    requires EntriesOk(hi + lo)
    ensures EntriesOk(lo)
  {
    assert forall i :: 0 <= i < |lo| ==> lo[i] == (hi + lo)[|hi| + i];
  }

  /** Decoding the elements of the higher entries on top of the lower ones gives all entries. */
  lemma {:induction false} DecodeHigher(hi: seq<Entry>, lo: seq<Entry>)
    requires EntriesOk(hi + lo) && forall i :: 0 <= i < |hi| ==> hi[i].key.Comp?
    ensures EntriesOk(lo) && DecodeRest(Elements(hi), lo) == Ok(hi + lo)
    decreases |hi|
  {
    LowOk(hi, lo);
    if |hi| == 0 {
      assert hi + lo == lo;
    } else {
      var x, rest := hi[|hi| - 1], hi[..|hi| - 1];
      SplitLow(hi, lo);
      ElementsLast(hi);
      EmplaceFront(lo, x);
      DecodeHigher(rest, [x] + lo);
      DecodeEntry(x, Elements(rest), lo);
    }
  }

  /** The elements of the least entry come first. */
  lemma {:induction false} ElementsLast(e: seq<Entry>)
    requires |e| > 0
    ensures Elements(e) == EntryElements(e[|e| - 1]) + Elements(e[..|e| - 1])
  {
    var k := |e| - 1;
    if k == 0 {
      assert e[1..] == [] && e[..0] == [];
    } else {
      ElementsLast(e[1..]);
      assert e[1..][..k - 1] == e[..k][1..] && e[..k][0] == e[0];
      assert EntryElements(e[k]) + Elements(e[..k][1..]) + EntryElements(e[0]) ==
             EntryElements(e[k]) + (Elements(e[..k][1..]) + EntryElements(e[0]));
    }
  }

  /** The first element of what follows an entry is a component, so a missing ANY mark is read as missing. */
  lemma DecodeEntry(x: Entry, rest: seq<Element>, lo: seq<Entry>)
    requires EntriesOk(lo) && x.key.Comp? && IsValid(x.key.c) && (|rest| > 0 ==> rest[0].typ != TLV_ANY)
    ensures EntriesOk(Emplace(lo, x.key, x.any))
    ensures DecodeRest(EntryElements(x) + rest, lo) == DecodeRest(rest, Emplace(lo, x.key, x.any))
  {
    var all := EntryElements(x) + rest;
    EmplaceOk(lo, x.key, x.any);
    assert all[0] == ElementOf(x.key.c) && FromBlock(all[0].typ, all[0].value) == Ok(x.key.c);
    if x.any {
      assert all[1] == ANY_ELEMENT && all[2..] == rest;
    } else {
      assert all[1..] == rest;
    }
  }

  /** Encoding and decoding a map that is not empty gives it back, with a leading or trailing open range as well. */
  lemma RoundTrip(e: seq<Entry>)
    requires EntriesOk(e) && |e| > 0
    ensures Decode(Elements(e)) == Ok(e)
  {
    var k := |e| - 1;
    ElementsLast(e);
    forall i | 0 <= i < k
      ensures e[i].key.Comp?
    {
      assert KeyLess(e[k].key, e[i].key);
    }
    if e[k].key.NegInf? {
      LeadingAny(e);
    } else {
      assert e + [] == e;
      DecodeHigher(e, []);
      assert Elements(e)[0] == ElementOf(e[k].key.c);
    }
  }

  lemma LeadingAny(e: seq<Entry>)
    requires EntriesOk(e) && |e| > 0 && e[|e| - 1].key.NegInf? && forall i :: 0 <= i < |e| - 1 ==> e[i].key.Comp?
    requires Elements(e) == EntryElements(e[|e| - 1]) + Elements(e[..|e| - 1])
    ensures Decode(Elements(e)) == Ok(e)
  {
    var hi, lo := e[..|e| - 1], [Entry(NegInf, true)];
    assert e[|e| - 1] == Entry(NegInf, true);
    LastSplit(e);
    DecodeHigher(hi, lo);
    DecodeAny(Elements(hi));
    AnyOnly();
  }

  lemma LastSplit(e: seq<Entry>)
    requires |e| > 0
    ensures e[..|e| - 1] + [e[|e| - 1]] == e
  {
  }

  lemma AnyOnly()
    ensures EntryElements(Entry(NegInf, true)) == [ANY_ELEMENT]
  {
  }

  lemma DecodeAny(rest: seq<Element>)
    ensures Decode([ANY_ELEMENT] + rest) == DecodeRest(rest, [Entry(NegInf, true)])
  {
  }

  // ----- which elements are a filter -----

  /** An ANY mark or a name component; two ANY marks in a row have no component between them. */
  predicate ElementOk(elements: seq<Element>, i: nat)
    requires i < |elements|
  {
    if elements[i].typ == TLV_ANY then i + 1 < |elements| ==> elements[i + 1].typ != TLV_ANY
    else IsValid(Component(elements[i].typ, elements[i].value))
  }

  predicate WellFormed(elements: seq<Element>) {
    forall i :: 0 <= i < |elements| ==> ElementOk(elements, i)
  }

  lemma WellFormedTail(elements: seq<Element>, k: nat)
    requires k <= |elements|
    ensures WellFormed(elements) <==> (forall i :: 0 <= i < k ==> ElementOk(elements, i)) && WellFormed(elements[k..])
  {
    forall j | 0 <= j < |elements| - k
      ensures ElementOk(elements[k..], j) <==> ElementOk(elements, j + k)
    {
    }
    if WellFormed(elements[k..]) {
      forall i | k <= i < |elements|
        ensures ElementOk(elements, i)
      {
        assert ElementOk(elements[k..], i - k);
      }
    }
  }

  lemma {:induction false} DecodeRestExact(elements: seq<Element>, e: seq<Entry>)
    requires EntriesOk(e)
    ensures DecodeRest(elements, e).Ok? <==> WellFormed(elements) && (|elements| > 0 ==> elements[0].typ != TLV_ANY)
    ensures DecodeRest(elements, e).Err? ==> DecodeRest(elements, e).error == BadExcludeFormat
    decreases |elements|
  {
    if |elements| > 0 && FromBlock(elements[0].typ, elements[0].value).Ok? {
      var c := Component(elements[0].typ, elements[0].value);
      EmplaceOk(e, Comp(c), true);
      EmplaceOk(e, Comp(c), false);
      if |elements| > 1 && elements[1].typ == TLV_ANY {
        WellFormedTail(elements, 2);
        assert ElementOk(elements, 0) && (ElementOk(elements, 1) <==> |elements| > 2 ==> elements[2].typ != TLV_ANY);
        DecodeRestExact(elements[2..], Emplace(e, Comp(c), true));
      } else {
        WellFormedTail(elements, 1);
        assert ElementOk(elements, 0);
        DecodeRestExact(elements[1..], Emplace(e, Comp(c), false));
      }
    } else if |elements| > 0 {
      assert elements[0].typ != TLV_ANY ==> !ElementOk(elements, 0);
    }
  }

  /**
   * Exactly the element sequences that are not empty, hold only components and ANY marks, and have no two ANY marks in
   * a row are decoded.
   */
  lemma DecodeExact(elements: seq<Element>)
    ensures Decode(elements) == Err(EmptyExclude) <==> elements == []
    ensures Decode(elements).Ok? <==> elements != [] && WellFormed(elements)
    ensures Decode(elements).Err? ==> Decode(elements).error in {EmptyExclude, BadExcludeFormat}
  {
    if |elements| > 0 && elements[0].typ == TLV_ANY {
      WellFormedTail(elements, 1);
      assert ElementOk(elements, 0) <==> |elements| > 1 ==> elements[1].typ != TLV_ANY;
      DecodeRestExact(elements[1..], [Entry(NegInf, true)]);
    } else if |elements| > 0 {
      DecodeRestExact(elements, []);
    }
  }

  // ----- what they are decoded to -----

  /** The ANY mark of a key, if the map has it. */
  function Mark(e: seq<Entry>, k: Key): Option<bool> {
    var i := LowerBound(e, k);
    if i < |e| && e[i].key == k then Some(e[i].any) else None
  }

  lemma MarkIn(e: seq<Entry>, k: Key)
    requires Sorted(e)
    ensures forall any :: Mark(e, k) == Some(any) <==> Entry(k, any) in e
  {
    KeyLessTotal(k, k);
    if i :| 0 <= i < |e| && e[i].key == k {
      LowerBoundUnique(e, k, i);
    }
  }

  lemma EmplaceIn(e: seq<Entry>, k: Key, any: bool, x: Entry)
    requires Mark(e, k).None?
    ensures x in Emplace(e, k, any) <==> x in e || x == Entry(k, any)
  {
    var i := LowerBound(e, k);
    assert e == e[..i] + e[i..];
  }

  lemma EmplaceMark(e: seq<Entry>, k: Key, any: bool, k': Key)
    requires Sorted(e)
    ensures Mark(Emplace(e, k, any), k') ==
            if Mark(e, k').Some? then Mark(e, k') else if k' == k then Some(any) else None
  {
    if Mark(e, k).None? {
      EmplaceSorted(e, k, any);
      MarkIn(e, k');
      MarkIn(Emplace(e, k, any), k');
      EmplaceIn(e, k, any, Entry(k', true));
      EmplaceIn(e, k, any, Entry(k', false));
    }
  }

  /** The mark after the first occurrence of a component. */
  function FirstMark(elements: seq<Element>, c: Component): Option<bool> {
    if |elements| == 0 then None
    else if elements[0] == ElementOf(c) then Some(|elements| > 1 && elements[1].typ == TLV_ANY)
    else FirstMark(elements[1..], c)
  }

  lemma AnyIsNoComponent(elements: seq<Element>, c: Component)
    requires |elements| > 0 && elements[0].typ == TLV_ANY && IsValid(c)
    ensures FirstMark(elements, c) == FirstMark(elements[1..], c)
  {
  }

  lemma {:induction false} DecodeRestMark(elements: seq<Element>, e: seq<Entry>, c: Component)
    requires EntriesOk(e) && IsValid(c) && DecodeRest(elements, e).Ok?
    ensures var r := DecodeRest(elements, e).value;
            Mark(r, Comp(c)) == (if Mark(e, Comp(c)).Some? then Mark(e, Comp(c)) else FirstMark(elements, c)) &&
            Mark(r, NegInf) == Mark(e, NegInf)
    decreases |elements|
  {
    if |elements| > 0 {
      var d := Component(elements[0].typ, elements[0].value);
      var any := |elements| > 1 && elements[1].typ == TLV_ANY;
      EmplaceOk(e, Comp(d), any);
      EmplaceMark(e, Comp(d), any, Comp(c));
      EmplaceMark(e, Comp(d), any, NegInf);
      if any {
        AnyIsNoComponent(elements[1..], c);
        assert elements[1..][1..] == elements[2..];
        DecodeRestMark(elements[2..], Emplace(e, Comp(d), true), c);
      } else {
        DecodeRestMark(elements[1..], Emplace(e, Comp(d), false), c);
      }
    }
  }

  /**
   * In any order and however often components occur: each has the mark that follows its first occurrence, and the range
   * from negative infinity is there exactly if an ANY mark comes first.
   */
  lemma DecodeMeaning(elements: seq<Element>, c: Component)
    requires Decode(elements).Ok? && IsValid(c)
    ensures Mark(Decode(elements).value, Comp(c)) == FirstMark(elements, c)
    ensures Mark(Decode(elements).value, NegInf) == if elements[0].typ == TLV_ANY then Some(true) else None
  {
    if elements[0].typ == TLV_ANY {
      AnyIsNoComponent(elements, c);
      DecodeRestMark(elements[1..], [Entry(NegInf, true)], c);
    } else {
      DecodeRestMark(elements, [], c);
    }
  }
}
