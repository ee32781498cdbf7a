/** Name components: canonical order and successor (name-component.cpp). */
module Components {
  import opened Wrappers

  type byte = x: int | 0 <= x < 256

  const NAME_COMPONENT: nat := 8
  const IMPLICIT_DIGEST: nat := 1
  const DIGEST_SIZE: nat := 32

  datatype Component = Component(typ: nat, value: seq<byte>)

  predicate IsGeneric(c: Component) {
    c.typ == NAME_COMPONENT
  }

  predicate IsImplicitSha256Digest(c: Component) {
    c.typ == IMPLICIT_DIGEST && |c.value| == DIGEST_SIZE
  }

  predicate IsValid(c: Component) {
    IsGeneric(c) || IsImplicitSha256Digest(c)
  }

  /** The check made when a component is built from a TLV block. */
  function FromBlock(typ: nat, value: seq<byte>): Result<Component> {
    var c := Component(typ, value);
    if IsValid(c) then Ok(c) else Err(BadComponentType)
  }

  // ----- canonical order -----

  /** memcmp on two buffers of the same length: the difference at the first mismatch. */
  function Memcmp(a: seq<byte>, b: seq<byte>): int
    requires |a| == |b|
  {
    if |a| == 0 then 0
    else if a[0] != b[0] then a[0] - b[0]
    else Memcmp(a[1..], b[1..])
  }

  function Compare(a: Component, b: Component): int {
    if a.typ != b.typ then a.typ - b.typ
    else if |a.value| != |b.value| then |a.value| - |b.value|
    else Memcmp(a.value, b.value)
  }

  predicate Equals(a: Component, b: Component) {
    a.typ == b.typ && |a.value| == |b.value| && (|a.value| == 0 || a.value == b.value)
  }

  /** The value read as a big-endian number. */
  function Num(v: seq<byte>): nat {
    if |v| == 0 then 0 else Num(v[..|v| - 1]) * 256 + v[|v| - 1]
  }

  /** The values agree before position k and a has the smaller byte there. */
  predicate DiffersFirst(a: seq<byte>, b: seq<byte>, k: nat)
    requires k < |a| == |b|
  {
    a[k] < b[k] && forall i :: 0 <= i < k ==> a[i] == b[i]
  }

  predicate BytesLess(a: seq<byte>, b: seq<byte>)
    requires |a| == |b|
  {
    exists k :: 0 <= k < |a| && DiffersFirst(a, b, k)
  }

  /** Canonical order: type, then length, then the bytes. */
  predicate Less(a: Component, b: Component) {
    a.typ < b.typ ||
    (a.typ == b.typ &&
     (|a.value| < |b.value| ||
      (|a.value| == |b.value| && BytesLess(a.value, b.value))))
  }

  lemma BytesLessFront(a: seq<byte>, b: seq<byte>)
    requires |a| == |b| > 0
    ensures BytesLess(a, b) <==> a[0] < b[0] || (a[0] == b[0] && BytesLess(a[1..], b[1..]))
  {
    if a[0] < b[0] {
      assert DiffersFirst(a, b, 0);
    }
    if a[0] == b[0] && BytesLess(a[1..], b[1..]) {
      var k :| 0 <= k < |a| - 1 && DiffersFirst(a[1..], b[1..], k);
      forall i | 0 <= i < k + 1
        ensures a[i] == b[i]
      {
        assert i > 0 ==> a[1..][i - 1] == b[1..][i - 1];
      }
      assert DiffersFirst(a, b, k + 1);
    }
    if BytesLess(a, b) {
      var k :| 0 <= k < |a| && DiffersFirst(a, b, k);
      if k > 0 {
        assert DiffersFirst(a[1..], b[1..], k - 1);
      }
    }
  }

  lemma {:induction false} MemcmpIsOrder(a: seq<byte>, b: seq<byte>)
    requires |a| == |b|
    ensures Memcmp(a, b) < 0 <==> BytesLess(a, b)
    ensures Memcmp(a, b) > 0 <==> BytesLess(b, a)
    ensures Memcmp(a, b) == 0 <==> a == b
    decreases |a|
  {
    if |a| > 0 {
      BytesLessFront(a, b);
      BytesLessFront(b, a);
      MemcmpIsOrder(a[1..], b[1..]);
      assert a == [a[0]] + a[1..] && b == [b[0]] + b[1..];
    }
  }

  /** Values of one length are ordered as the numbers they spell. */
  lemma BytesLessIsNumeric(a: seq<byte>, b: seq<byte>)
    requires |a| == |b|
    ensures BytesLess(a, b) <==> Num(a) < Num(b)
    ensures a == b <==> Num(a) == Num(b)
  {
    MemcmpIsOrder(a, b);
    MemcmpIsNumeric(a, b);
  }

  lemma {:induction false} MemcmpDropLast(a: seq<byte>, b: seq<byte>)
    requires |a| == |b| > 0
    ensures var n := |a| - 1;
            Memcmp(a, b) == if Memcmp(a[..n], b[..n]) != 0 then Memcmp(a[..n], b[..n]) else a[n] as int - b[n] as int
  {
    if |a| > 1 && a[0] == b[0] {
      var n := |a| - 1;
      assert a[..n][1..] == a[1..][..n - 1] && b[..n][1..] == b[1..][..n - 1];
      MemcmpDropLast(a[1..], b[1..]);
    }
  }

  lemma {:induction false} MemcmpIsNumeric(a: seq<byte>, b: seq<byte>)
    requires |a| == |b|
    ensures Memcmp(a, b) < 0 <==> Num(a) < Num(b)
    ensures Memcmp(a, b) == 0 <==> a == b
    ensures Num(a) == Num(b) <==> a == b
  {
    if |a| > 0 {
      var n := |a| - 1;
      MemcmpDropLast(a, b);
      MemcmpIsNumeric(a[..n], b[..n]);
      assert a == a[..n] + [a[n]] && b == b[..n] + [b[n]];
    }
  }

  /** The sign of compare is the canonical order, and zero means equal. */
  lemma CompareSign(a: Component, b: Component)
    ensures Compare(a, b) < 0 <==> Less(a, b)
    ensures Compare(a, b) > 0 <==> Less(b, a)
    ensures Compare(a, b) == 0 <==> a == b
    ensures Equals(a, b) <==> a == b
  {
    if |a.value| == |b.value| {
      MemcmpIsOrder(a.value, b.value);
    }
  }

  /** Less is a strict total order. */
  lemma LessTotal(a: Component, b: Component)
    ensures !Less(a, a)
    ensures Less(a, b) || a == b || Less(b, a)
    ensures !(Less(a, b) && Less(b, a))
  {
    MemcmpIsOrder(a.value, a.value);
    if |a.value| == |b.value| {
      MemcmpIsOrder(a.value, b.value);
    }
  }

  lemma LessTransitive(a: Component, b: Component, c: Component)
    ensures Less(a, b) && Less(b, c) ==> Less(a, c)
  {
    if Less(a, b) && Less(b, c) && a.typ == b.typ == c.typ && |a.value| == |b.value| == |c.value| {
      BytesLessIsNumeric(a.value, b.value);
      BytesLessIsNumeric(b.value, c.value);
      BytesLessIsNumeric(a.value, c.value);
    }
  }

  // ----- successor -----

  predicate AllMax(v: seq<byte>) {
    forall i :: 0 <= i < |v| ==> v[i] == 255
  }

  function Zeros(n: nat): (z: seq<byte>)
    ensures |z| == n && forall i :: 0 <= i < n ==> z[i] == 0
  {
    seq(n, i => 0)
  }

  /** Add one to the last byte, carrying to the front. */
  function Increment(v: seq<byte>): (r: seq<byte>)
    requires !AllMax(v)
    ensures |r| == |v|
  {
    var n := |v| - 1;
    if v[n] < 255 then v[..n] + [v[n] + 1] else Increment(v[..n]) + [0]
  }

  /** The number grows by one. */
  lemma {:induction false} IncrementIsNumeric(v: seq<byte>)
    requires !AllMax(v)
    ensures Num(Increment(v)) == Num(v) + 1
  {
    var n := |v| - 1;
    if v[n] < 255 {
      assert (v[..n] + [v[n] + 1])[..n] == v[..n];
    } else {
      IncrementIsNumeric(v[..n]);
      assert (Increment(v[..n]) + [0])[..n] == Increment(v[..n]);
    }
  }

  /** The bytes getSuccessor writes: increment, or one byte longer and all zero on overflow. */
  function SuccessorValue(v: seq<byte>): seq<byte> {
    if AllMax(v) then Zeros(|v| + 1) else Increment(v)
  }

  function Successor(c: Component): Result<Component> {
    FromBlock(c.typ, SuccessorValue(c.value))
  }

  lemma {:induction false} IncrementAt(v: seq<byte>, i: nat)
    requires i < |v| && v[i] < 255 && AllMax(v[i + 1..])
    ensures !AllMax(v) && Increment(v) == v[..i] + ([v[i] + 1] + Zeros(|v| - i - 1))
    decreases |v|
  {
    var n := |v| - 1;
    if i < n {
      assert v[n] == v[i + 1..][n - i - 1];
      assert v[..n][i + 1..] == v[i + 1..][..n - i - 1];
      IncrementAt(v[..n], i);
      assert v[..n][..i] == v[..i] && v[..n][i] == v[i];
      OneMoreZero(v[..i], v[i] + 1, n - i - 1);
    } else {
      assert [v[i] + 1] + Zeros(0) == [v[i] + 1];
    }
  }

  lemma OneMoreZero(a: seq<byte>, x: byte, k: nat)
    ensures a + ([x] + Zeros(k)) + [0] == a + ([x] + Zeros(k + 1))
  {
  }

  /** One more byte of 255 at the front carries on. */
  lemma CarryOn(v: seq<byte>, i: nat)
    requires 0 < i <= |v| && AllMax(v[i..]) && v[i - 1] == 255
    ensures AllMax(v[i - 1..]) && [0] + Zeros(|v| - i) == Zeros(|v| - i + 1)
  {
  }

  /** getSuccessor: the loop walks from the last byte while the increment overflows. */
  method GetSuccessor(c: Component) returns (r: Result<Component>)
    ensures r == Successor(c)
  {
    ghost var v := c.value;
    var encoder: seq<byte> := [];
    var isOverflow := true;
    var i := |c.value|;
    while isOverflow && i > 0
      invariant 0 <= i <= |v| && |encoder| == |v| - i
      invariant isOverflow ==> AllMax(v[i..]) && encoder == Zeros(|v| - i)
      invariant !isOverflow ==> !AllMax(v) && v[..i] + encoder == Increment(v)
      decreases i
    {
      var newValue: byte := (c.value[i - 1] as int + 1) % 256;
      isOverflow := newValue == 0;
      if isOverflow {
        CarryOn(v, i);
      } else {
        IncrementAt(v, i - 1);
      }
      encoder := [newValue] + encoder;
      i := i - 1;
    }
    encoder := c.value[..i] + encoder;
    if isOverflow {
      assert v[0..] == v;
      encoder := encoder + [0];
      assert encoder == Zeros(|v| + 1);
    }
    r := FromBlock(c.typ, encoder);
  }

  lemma {:induction false} AllMaxIsLargest(v: seq<byte>, w: seq<byte>)
    requires AllMax(v) && |w| == |v|
    ensures Num(w) <= Num(v)
  {
    if |v| > 0 {
      AllMaxIsLargest(v[..|v| - 1], w[..|v| - 1]);
    }
  }

  lemma {:induction false} NumZeros(n: nat)
    ensures Num(Zeros(n)) == 0
  {
    if n > 0 {
      NumZeros(n - 1);
      assert Zeros(n)[..n - 1] == Zeros(n - 1);
    }
  }

  /** No component lies strictly between c and its successor value, whatever its type or length. */
  lemma SuccessorIsNext(c: Component, z: Component)
    ensures var s := Component(c.typ, SuccessorValue(c.value));
            Less(c, s) && (Less(c, z) <==> z == s || Less(s, z))
  {
    var s := Component(c.typ, SuccessorValue(c.value));
    NumZeros(|c.value| + 1);
    if |s.value| == |c.value| {
      IncrementIsNumeric(c.value);
      BytesLessIsNumeric(c.value, s.value);
    }
    if |z.value| == |c.value| {
      BytesLessIsNumeric(c.value, z.value);
      if AllMax(c.value) {
        AllMaxIsLargest(c.value, z.value);
      }
    }
    if |z.value| == |s.value| {
      BytesLessIsNumeric(s.value, z.value);
    }
  }

  /** getSuccessor throws exactly for the digest of 32 bytes 0xFF. */
  lemma SuccessorThrows(c: Component)
    requires IsValid(c)
    ensures Successor(c).Err? <==> c == Component(IMPLICIT_DIGEST, seq(DIGEST_SIZE, i => 255))
    ensures Successor(c).Ok? ==> Successor(c).value == Component(c.typ, SuccessorValue(c.value))
  {
  }
}
