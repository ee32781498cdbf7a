/** Names: canonical order, prefixes, sub-names and successors (name.cpp). */
module Names {
  import opened Wrappers
  import opened Components

  type Name = seq<Component>

  const NPOS: nat := 0xFFFF_FFFF_FFFF_FFFF
  const SIZE_LIMIT: nat := 0x1_0000_0000_0000_0000
  const INT_LIMIT: int := 0x8000_0000

  // ----- canonical order -----

  /** Canonical order: the first differing component decides, a proper prefix comes first. */
  predicate Less(a: Name, b: Name) {
    |b| > 0 &&
    (|a| == 0 || Components.Less(a[0], b[0]) || (a[0] == b[0] && Less(a[1..], b[1..])))
  }

  /** Less is a strict total order. */
  lemma {:induction false} LessTotal(a: Name, b: Name)
    ensures !Less(a, a)
    ensures Less(a, b) || a == b || Less(b, a)
    ensures !(Less(a, b) && Less(b, a))
  {
    if |a| > 0 {
      Components.LessTotal(a[0], a[0]);
      LessTotal(a[1..], a[1..]);
      if |b| > 0 {
        Components.LessTotal(a[0], b[0]);
        LessTotal(a[1..], b[1..]);
        if a[0] == b[0] && a[1..] == b[1..] {
          assert a == [a[0]] + a[1..] && b == [b[0]] + b[1..];
        }
      }
    }
  }

  lemma {:induction false} LessTransitive(a: Name, b: Name, c: Name)
    requires Less(a, b) && Less(b, c)
    ensures Less(a, c)
  {
    if |a| > 0 {
      Components.LessTransitive(a[0], b[0], c[0]);
    }
    if |a| > 0 && a[0] == b[0] && b[0] == c[0] {
      LessTransitive(a[1..], b[1..], c[1..]);
    }
  }

  lemma {:induction false} LessCommonPrefix(p: Name, x: Name, y: Name)
    ensures Less(p + x, p + y) <==> Less(x, y)
  {
    if |p| == 0 {
      assert p + x == x && p + y == y;
    } else {
      Components.LessTotal(p[0], p[0]);
      assert (p + x)[1..] == p[1..] + x && (p + y)[1..] == p[1..] + y;
      LessCommonPrefix(p[1..], x, y);
    }
  }

  /** The components [pos, pos + count) that exist. */
  function Clip(name: Name, pos: nat, count: nat): Name {
    if pos >= |name| then []
    else if pos + count <= |name| then name[pos..pos + count]
    else name[pos..]
  }

  lemma FirstDifference(x: Name, y: Name, i: nat)
    requires i < |x| && i < |y| && x[..i] == y[..i] && x[i] != y[i]
    ensures Less(x, y) <==> Components.Less(x[i], y[i])
  {
    assert x == x[..i] + x[i..] && y == x[..i] + y[i..];
    LessCommonPrefix(x[..i], x[i..], y[i..]);
  }

  lemma ClipMeaning(name: Name, pos: nat, count: nat)
    requires pos <= |name|
    ensures var c := if count < |name| - pos then count else |name| - pos;
            |Clip(name, pos, count)| == c && forall i :: 0 <= i < c ==> Clip(name, pos, count)[i] == name[pos + i]
  {
  }

  /** A difference after a common prefix decides the order both ways. */
  lemma DifferenceDecides(x: Name, y: Name, i: nat)
    requires i < |x| && i < |y| && (forall j :: 0 <= j < i ==> x[j] == y[j]) && x[i] != y[i]
    ensures Less(x, y) <==> Components.Compare(x[i], y[i]) < 0
    ensures Less(y, x) <==> Components.Compare(x[i], y[i]) > 0
  {
    assert x[..i] == y[..i];
    FirstDifference(x, y, i);
    FirstDifference(y, x, i);
    CompareSign(x[i], y[i]);
  }

  /** Names of which one is a prefix of the other are ordered by length. */
  lemma LengthDecides(x: Name, y: Name)
    requires forall j :: 0 <= j < |x| && j < |y| ==> x[j] == y[j]
    ensures Less(x, y) <==> |x| < |y|
    ensures Less(y, x) <==> |y| < |x|
    ensures x == y <==> |x| == |y|
  {
  }

  /** The number of components from pos on that compare considers: size minus pos is taken in size_t. */
  function Available(size: nat, pos: nat, count: nat): nat
    requires pos < SIZE_LIMIT
  {
    var left := if pos <= size then size - pos else SIZE_LIMIT - (pos - size);
    if count < left then count else left
  }

  /** The conversion of a size_t difference to int. */
  function ToInt(x: int): int {
    var y := x % (2 * INT_LIMIT);
    if y < INT_LIMIT then y else y - 2 * INT_LIMIT
  }

  /** The sum of two size_t. */
  function SizeSum(x: nat, y: nat): nat {
    if x + y < SIZE_LIMIT then x + y else x + y - SIZE_LIMIT
  }

  /** What at reads: its index is signed, and a negative one counts from the end. */
  function ComponentAt(name: Name, pos: nat): Result<Component> {
    if pos < SIZE_LIMIT / 2 then if pos < |name| then Ok(name[pos]) else Err(OutOfBounds)
    else if SIZE_LIMIT <= pos + |name| && pos < SIZE_LIMIT then Ok(name[pos + |name| - SIZE_LIMIT])
    else Err(OutOfBounds)
  }

  /** The position is within the name, or counts from its end as a negative one. */
  predicate Reaches(size: nat, pos: nat) {
    pos <= size || pos + size >= SIZE_LIMIT
  }

  /** The components that compare visits: from a negative position, those up to the end and then the whole name. */
  function Range(name: Name, pos: nat, count: nat): Name
    requires pos < SIZE_LIMIT
  {
    if pos <= |name| then Clip(name, pos, count)
    else if Reaches(|name|, pos) then Clip(name[pos + |name| - SIZE_LIMIT..] + name, 0, count)
    else []
  }

  lemma RangeSize(name: Name, pos: nat, count: nat)
    requires pos < SIZE_LIMIT && |name| < SIZE_LIMIT / 2 && Reaches(|name|, pos)
    ensures |Range(name, pos, count)| == Available(|name|, pos, count)
  {
    if pos <= |name| {
      ClipMeaning(name, pos, count);
    } else {
      ClipMeaning(name[pos + |name| - SIZE_LIMIT..] + name, 0, count);
    }
  }

  lemma WrappedAt(name: Name, k: nat, i: nat)
    requires k <= |name| && i < |name| - k + |name|
    ensures (name[k..] + name)[i] == if k + i < |name| then name[k + i] else name[k + i - |name|]
  {
  }

  /** From a position within the name, at reads the range in order. */
  lemma RangeAtWithin(name: Name, pos: nat, count: nat, i: nat)
    requires pos <= |name| < SIZE_LIMIT / 2 && i < |Clip(name, pos, count)|
    ensures ComponentAt(name, SizeSum(pos, i)) == Ok(Clip(name, pos, count)[i])
  {
    ClipMeaning(name, pos, count);
  }

  /** From a negative position, too. */
  lemma RangeAtWrapped(name: Name, pos: nat, count: nat, i: nat)
    requires pos < SIZE_LIMIT <= pos + |name| && |name| < SIZE_LIMIT / 2
    requires i < |Clip(name[pos + |name| - SIZE_LIMIT..] + name, 0, count)|
    ensures ComponentAt(name, SizeSum(pos, i)) == Ok(Clip(name[pos + |name| - SIZE_LIMIT..] + name, 0, count)[i])
  {
    var k := pos + |name| - SIZE_LIMIT;
    ClipMeaning(name[k..] + name, 0, count);
    WrappedAt(name, k, i);
  }

  lemma RangeAt(name: Name, pos: nat, count: nat, i: nat)
    requires pos < SIZE_LIMIT && |name| < SIZE_LIMIT / 2
    requires Reaches(|name|, pos) && i < |Range(name, pos, count)|
    ensures ComponentAt(name, SizeSum(pos, i)) == Ok(Range(name, pos, count)[i])
  {
    if pos <= |name| {
      RangeAtWithin(name, pos, count, i);
    } else {
      RangeAtWrapped(name, pos, count, i);
    }
  }

  lemma OutOfReach(name: Name, pos: nat)
    requires pos < SIZE_LIMIT && |name| < SIZE_LIMIT / 2 && !Reaches(|name|, pos)
    ensures ComponentAt(name, SizeSum(pos, 0)) == Err(OutOfBounds)
  {
  }

  lemma ToIntSmall(x: int)
    requires -INT_LIMIT <= x < INT_LIMIT
    ensures ToInt(x) == x
  {
  }

  /** The sign is the order, except that a difference in length is cut to an int if one is a prefix of the other. */
  predicate Compared(v: int, x: Name, y: Name) {
    (x <= y || y <= x ==> v == ToInt(|x| - |y|)) &&
    (!(x <= y || y <= x) || -INT_LIMIT <= |x| - |y| < INT_LIMIT ==>
       (v < 0 <==> Less(x, y)) && (v > 0 <==> Less(y, x)) && (v == 0 <==> x == y))
  }

  predicate SameFirst(x: Name, y: Name, i: nat) {
    i <= |x| && i <= |y| && forall j :: 0 <= j < i ==> x[j] == y[j]
  }

  lemma ComparedAt(x: Name, y: Name, i: nat)
    requires i < |x| && i < |y| && SameFirst(x, y, i)
    ensures Components.Compare(x[i], y[i]) != 0 ==> Compared(Components.Compare(x[i], y[i]), x, y)
    ensures Components.Compare(x[i], y[i]) == 0 ==> SameFirst(x, y, i + 1)
  {
    CompareSign(x[i], y[i]);
    if x[i] != y[i] {
      DifferenceDecides(x, y, i);
      assert !(x <= y || y <= x);
    }
  }

  lemma ComparedAtEnd(x: Name, y: Name)
    requires SameFirst(x, y, if |x| < |y| then |x| else |y|)
    ensures Compared(ToInt(|x| - |y|), x, y)
  {
    LengthDecides(x, y);
    assert x <= y || y <= x;
    if -INT_LIMIT <= |x| - |y| < INT_LIMIT {
      ToIntSmall(|x| - |y|);
    }
  }

  /** One step of the loop. */
  lemma Visited(a: Name, pos1: nat, count1: nat, b: Name, pos2: nat, count2: nat, i: nat)
    requires |a| < SIZE_LIMIT / 2 && |b| < SIZE_LIMIT / 2 && pos1 < SIZE_LIMIT && pos2 < SIZE_LIMIT
    requires Reaches(|a|, pos1) && Reaches(|b|, pos2)
    requires i < |Range(a, pos1, count1)| && i < |Range(b, pos2, count2)|
    requires SameFirst(Range(a, pos1, count1), Range(b, pos2, count2), i)
    ensures var x, y := Range(a, pos1, count1), Range(b, pos2, count2);
            var ci, di := ComponentAt(a, SizeSum(pos1, i)), ComponentAt(b, SizeSum(pos2, i));
            ci.Ok? && di.Ok? &&
            var comp := Components.Compare(ci.value, di.value);
            (comp != 0 ==> Compared(comp, x, y)) && (comp == 0 ==> SameFirst(x, y, i + 1))
  {
    RangeAt(a, pos1, count1, i);
    RangeAt(b, pos2, count2, i);
    ComparedAt(Range(a, pos1, count1), Range(b, pos2, count2), i);
  }

  /**
   * compare walks both ranges until the first difference. It compares the sub-names, as documented, for positions
   * within the names. From a position that at takes for a negative one it goes through the end of the name and then
   * through the whole name; from any other it throws, or returns what is left of the wrapped counts.
   */
  method CompareRanges(a: Name, pos1: nat, count1: nat, b: Name, pos2: nat, count2: nat) returns (r: Result<int>)
    requires |a| < SIZE_LIMIT / 2 && |b| < SIZE_LIMIT / 2 && pos1 < SIZE_LIMIT && pos2 < SIZE_LIMIT
    requires count1 < SIZE_LIMIT && count2 < SIZE_LIMIT
    ensures Reaches(|a|, pos1) && Reaches(|b|, pos2) ==>
              r.Ok? && Compared(r.value, Range(a, pos1, count1), Range(b, pos2, count2))
    ensures var c1, c2 := Available(|a|, pos1, count1), Available(|b|, pos2, count2);
            !Reaches(|a|, pos1) || !Reaches(|b|, pos2) ==>
              r == if c1 > 0 && c2 > 0 then Err(OutOfBounds) else Ok(ToInt(c1 as int - c2))
  {
    var c1, c2 := Available(|a|, pos1, count1), Available(|b|, pos2, count2);
    var count := if c1 < c2 then c1 else c2;
    ghost var x, y := Range(a, pos1, count1), Range(b, pos2, count2);
    ghost var reach := Reaches(|a|, pos1) && Reaches(|b|, pos2);
    if reach {
      RangeSize(a, pos1, count1);
      RangeSize(b, pos2, count2);
    }
    var i := 0;
    while i < count
      invariant 0 <= i <= count && (i > 0 ==> reach)
      invariant reach ==> SameFirst(x, y, i)
    {
      var ci, di := ComponentAt(a, SizeSum(pos1, i)), ComponentAt(b, SizeSum(pos2, i));
      if reach {
        Visited(a, pos1, count1, b, pos2, count2, i);
      } else if Reaches(|a|, pos1) {
        OutOfReach(b, pos2);
      } else {
        OutOfReach(a, pos1);
      }
      if ci.Err? || di.Err? {
        return Err(OutOfBounds);
      }
      var comp := Components.Compare(ci.value, di.value);
      if comp != 0 {
        return Ok(comp);
      }
      i := i + 1;
    }
    if reach {
      ComparedAtEnd(x, y);
    }
    r := Ok(ToInt(c1 as int - c2));
  }

  // ----- prefixes -----

  /** isPrefixOf decides the prefix relation on component sequences. */
  method IsPrefixOf(a: Name, b: Name) returns (r: bool)
    ensures r <==> a <= b
  {
    if |a| > |b| {
      return false;
    }
    var i := 0;
    while i < |a|
      invariant 0 <= i <= |a| && a[..i] == b[..i]
    {
      CompareSign(a[i], b[i]);
      if !Components.Equals(a[i], b[i]) {
        return false;
      }
      i := i + 1;
    }
    return true;
  }

  lemma {:induction false} PrefixIsLess(p: Name, d: Name)
    requires p < d
    ensures Less(p, d)
  {
    if |p| > 0 {
      PrefixIsLess(p[1..], d[1..]);
    }
  }

  /** The extensions of a name are contiguous in canonical order. */
  lemma {:induction false} ExtensionsContiguous(p: Name, a: Name, b: Name)
    requires p <= b && !Less(a, p) && Less(a, b)
    ensures p <= a
  {
    if |p| > 0 {
      assert p[0] == b[0];
      if |a| > 0 {
        Components.LessTotal(a[0], p[0]);
        assert a[0] == p[0];
        ExtensionsContiguous(p[1..], a[1..], b[1..]);
      }
    }
  }

  // ----- sub-names -----

  function Start(name: Name, iStart: int): nat {
    var i := if iStart < 0 then |name| + iStart else iStart;
    if i < 0 then 0 else i
  }

  /** getSubName returns the documented slice exactly when start plus count does not wrap a size_t below the end. */
  method GetSubName(name: Name, iStartComponent: int, nComponents: nat) returns (r: Name)
    requires nComponents < SIZE_LIMIT && |name| < SIZE_LIMIT / 2
    requires -(SIZE_LIMIT / 2) <= iStartComponent < SIZE_LIMIT / 2
    ensures var start := Start(name, iStartComponent);
            r == Clip(name, start, nComponents) <==>
              nComponents == NPOS || start + nComponents < SIZE_LIMIT || start >= |name|
    ensures r == Clip(name, Start(name, iStartComponent), nComponents) || r == []
  {
    var iStart := Start(name, iStartComponent);
    var iEnd := |name|;
    if nComponents != NPOS {
      var sum := (iStart + nComponents) % SIZE_LIMIT;
      iEnd := if sum < |name| then sum else |name|;
    }
    r := [];
    var i := iStart;
    while i < iEnd
      invariant iStart <= i && (i <= iEnd || i == iStart)
      invariant r == if iStart <= i <= |name| then name[iStart..i] else []
    {
      r := r + [name[i]];
      i := i + 1;
    }
  }

  // ----- successor -----

  /** getSuccessor: the last component is replaced by its successor; "/" goes to "/%00". */
  function Successor(x: Name): Result<Name> {
    if |x| == 0 then Ok([Component(NAME_COMPONENT, [0])])
    else
      match Components.Successor(x[|x| - 1])
      case Ok(c) => Ok(x[..|x| - 1] + [c])
      case Err(e) => Err(e)
  }

  /** A name of one component against a longer or other one. */
  lemma LessOne(x: Component, z: Name)
    requires |z| > 0
    ensures Less(z, [x]) <==> Components.Less(z[0], x)
    ensures [x] <= z <==> z[0] == x
  {
    assert [x][1..] == [];
  }

  lemma PrefixIntervalOne(x: Name, z: Name)
    requires |x| == 1 && Successor(x).Ok? && |z| > 0
    ensures !Less(z, x) && Less(z, Successor(x).value) <==> x <= z
  {
    var s := Successor(x).value;
    assert x == [x[0]] && s == [s[0]];
    LessOne(x[0], z);
    LessOne(s[0], z);
    SuccessorIsNext(x[0], z[0]);
    Components.LessTotal(x[0], z[0]);
  }

  /** X <= Z < successor(X) holds exactly for the extensions of X. */
  lemma {:induction false} PrefixInterval(x: Name, z: Name)
    requires |x| > 0 && Successor(x).Ok?
    ensures !Less(z, x) && Less(z, Successor(x).value) <==> x <= z
  {
    var s := Successor(x).value;
    if |z| > 0 {
      Components.LessTotal(x[0], z[0]);
      Components.LessTotal(s[0], z[0]);
      if |x| == 1 {
        PrefixIntervalOne(x, z);
      } else {
        Components.LessTotal(x[0], x[0]);
        assert s[1..] == x[1..][..|x| - 2] + [s[|s| - 1]];
        PrefixInterval(x[1..], z[1..]);
      }
    }
  }

  /** The documented claim that no name lies between X and its successor fails at every proper extension of X. */
  lemma ExtensionsBelowSuccessor(x: Name, e: Name)
    requires |x| > 0 && Successor(x).Ok? && |e| > 0
    ensures Less(x, x + e) && Less(x + e, Successor(x).value)
  {
    PrefixIsLess(x, x + e);
    PrefixInterval(x, x + e);
  }

  lemma NothingBelowZero(v: seq<byte>)
    requires |v| == 1
    ensures !BytesLess(v, [0])
  {
  }

  /** The names below the successor of "/": itself, and those that start with a digest or with an empty component. */
  lemma EmptyNameSuccessor(z: Name)
    requires |z| > 0 ==> IsValid(z[0])
    ensures Less(z, Successor([]).value) <==>
              z == [] || IsImplicitSha256Digest(z[0]) || z[0] == Component(NAME_COMPONENT, [])
  {
    if |z| > 0 && |z[0].value| == 1 {
      NothingBelowZero(z[0].value);
    }
  }
}
