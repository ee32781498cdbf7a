/** Address ranges in CIDR notation (core/network.cpp). An address is its bytes; 4 of them for IPv4, 16 for IPv6. */
module Networks {
  import opened Wrappers

  type Address = a: seq<bv8> | |a| == 4 || |a| == 16 witness [0, 0, 0, 0]

  /** The order of addresses: IPv4 before IPv6, then byte by byte. */
  predicate BytesBelow(a: seq<bv8>, b: seq<bv8>)
    requires |a| == |b|
  {
    |a| > 0 && (a[0] < b[0] || (a[0] == b[0] && BytesBelow(a[1..], b[1..])))
  }

  predicate Below(a: Address, b: Address) {
    |a| < |b| || (|a| == |b| && BytesBelow(a, b))
  }

  datatype Network = Network(min: Address, max: Address) {
    predicate DoesContain(a: Address) {
      !Below(a, min) && !Below(max, a)
    }
  }

  // ----- bits -----

  /** The byte with only bit j set, counted from the most significant one. */
  function BitMask(j: nat): bv8
    requires j < 8
  {
    match j
    case 0 => 0x80
    case 1 => 0x40
    case 2 => 0x20
    case 3 => 0x10
    case 4 => 0x08
    case 5 => 0x04
    case 6 => 0x02
    case _ => 0x01
  }

  lemma BitMaskIsShift(j: nat)
    requires j < 8
    ensures BitMask(j) == (1 as bv8) << (7 - j)
  {
    if j == 0 {
    } else if j == 1 {
    } else if j == 2 {
    } else if j == 3 {
    } else if j == 4 {
    } else if j == 5 {
    } else if j == 6 {
    } else {
      assert j == 7;
    }
  }

  /** The byte whose first k bits are set. */
  function HighBits(k: nat): bv8
    requires k <= 8
  {
    match k
    case 0 => 0x00
    case 1 => 0x80
    case 2 => 0xC0
    case 3 => 0xE0
    case 4 => 0xF0
    case 5 => 0xF8
    case 6 => 0xFC
    case 7 => 0xFE
    case _ => 0xFF
  }

  lemma HighBitsGrow(k: nat)
    requires k < 8
    ensures HighBits(k) | BitMask(k) == HighBits(k + 1)
  {
  }

  predicate BitAt(x: bv8, j: nat)
    requires j < 8
  {
    x & BitMask(j) != 0
  }

  predicate BitsAgree(x: bv8, y: bv8, k: nat)
    requires k <= 8
  {
    forall j :: 0 <= j < k ==> BitAt(x, j) == BitAt(y, j)
  }

  predicate MaskAgree(x: bv8, y: bv8, k: nat)
    requires k <= 8
  {
    x & HighBits(k) == y & HighBits(k)
  }

  lemma MaskAgreeFront(x: bv8, y: bv8, k: nat)
    requires k < 4
    ensures MaskAgree(x, y, k + 1) <==> MaskAgree(x, y, k) && BitAt(x, k) == BitAt(y, k)
  {
  }

  lemma MaskAgreeBack(x: bv8, y: bv8, k: nat)
    requires 4 <= k < 8
    ensures MaskAgree(x, y, k + 1) <==> MaskAgree(x, y, k) && BitAt(x, k) == BitAt(y, k)
  {
  }

  /** Runs of agreement: p[k] says that the first k of the facts b hold. */
  lemma {:induction false} Conjunction(p: seq<bool>, b: seq<bool>, k: nat)
    requires k <= |b| && |p| == |b| + 1 && p[0] && forall j :: 0 <= j < |b| ==> (p[j + 1] <==> p[j] && b[j])
    ensures p[k] <==> forall j :: 0 <= j < k ==> b[j]
  {
    if k > 0 {
      Conjunction(p, b, k - 1);
      assert p[k - 1 + 1] <==> p[k - 1] && b[k - 1];
    }
  }

  /** Bytes agree under a mask of k high bits exactly if their first k bits agree. */
  lemma HighBitsAgree(x: bv8, y: bv8, k: nat)
    requires k <= 8
    ensures MaskAgree(x, y, k) <==> BitsAgree(x, y, k)
  {
    var p := seq(9, j requires 0 <= j < 9 => MaskAgree(x, y, j));
    var b := seq(8, j requires 0 <= j < 8 => BitAt(x, j) == BitAt(y, j));
    forall j | 0 <= j < 8
      ensures p[j + 1] <==> p[j] && b[j]
    {
      if j < 4 {
        MaskAgreeFront(x, y, j);
      } else {
        MaskAgreeBack(x, y, j);
      }
    }
    Conjunction(p, b, k);
    assert forall j :: 0 <= j < 8 ==> b[j] == (BitAt(x, j) == BitAt(y, j));
  }

  // ----- masks over addresses -----

  /** How many of the first `mask` bits of an address lie in byte i. */
  function Filled(mask: nat, i: nat): (k: nat)
    ensures k <= 8
  {
    if mask <= 8 * i then 0 else if mask >= 8 * i + 8 then 8 else mask - 8 * i
  }

  function MaskBytes(n: nat, mask: nat): (m: seq<bv8>)
    ensures |m| == n && forall i :: 0 <= i < n ==> m[i] == HighBits(Filled(mask, i))
  {
    seq(n, i requires 0 <= i < n => HighBits(Filled(mask, i)))
  }

  function LowEnd(x: bv8, m: bv8): bv8 {
    x & m
  }

  function HighEnd(x: bv8, m: bv8): bv8 {
    x | !m
  }

  function MinBytes(a: seq<bv8>, m: seq<bv8>): (r: seq<bv8>)
    requires |a| == |m|
    ensures |r| == |a| && forall i :: 0 <= i < |a| ==> r[i] == LowEnd(a[i], m[i])
  {
    seq(|a|, i requires 0 <= i < |a| => LowEnd(a[i], m[i]))
  }

  function MaxBytes(a: seq<bv8>, m: seq<bv8>): (r: seq<bv8>)
    requires |a| == |m|
    ensures |r| == |a| && forall i :: 0 <= i < |a| ==> r[i] == HighEnd(a[i], m[i])
  {
    seq(|a|, i requires 0 <= i < |a| => HighEnd(a[i], m[i]))
  }

  lemma FilledStep(i: nat, b: nat)
    ensures Filled(i + 1, b) == if b == i / 8 then Filled(i, b) + 1 else Filled(i, b)
    ensures Filled(i, i / 8) == i % 8
  {
    assert i == 8 * (i / 8) + i % 8;
    if b < i / 8 {
      assert 8 * b + 8 <= i;
    } else if b > i / 8 {
      assert i + 1 <= 8 * b;
    }
  }

  function Cidr(address: Address, mask: nat): Network {
    var m := MaskBytes(|address|, mask);
    Network(MinBytes(address, m), MaxBytes(address, m))
  }

  /**
   * operator>>: the mask is built bit by bit; without a mask the range is the one address. A mask longer than the
   * address writes beyond the mask bytes, which stands as an error here.
   */
  method ParseNetwork(address: Address, mask: Option<nat>) returns (r: Result<Network>)
    ensures r == match mask
                 case None => Ok(Network(address, address))
                 case Some(k) => if k <= 8 * |address| then Ok(Cidr(address, k)) else Err(OutOfBounds)
  {
    if mask.None? {
      return Ok(Network(address, address));
    }
    var inBounds, maskBytes := MaskOf(|address|, mask.value);
    if !inBounds {
      return Err(OutOfBounds);
    }
    assert maskBytes[..] == MaskBytes(|address|, mask.value);
    var min, max := ApplyMask(address, maskBytes);
    r := Ok(Network(min[..], max[..]));
  }

  method ApplyMask(address: Address, maskBytes: array<bv8>) returns (min: array<bv8>, max: array<bv8>)
    requires maskBytes.Length == |address|
    ensures fresh(min) && fresh(max)
    ensures min[..] == MinBytes(address, maskBytes[..]) && max[..] == MaxBytes(address, maskBytes[..])
  {
    ghost var m := maskBytes[..];
    min, max := new bv8[|address|], new bv8[|address|];
    var i := 0;
    while i < |address|
      invariant i <= |address| && maskBytes[..] == m
      invariant forall b :: 0 <= b < i ==> min[b] == LowEnd(address[b], m[b]) && max[b] == HighEnd(address[b], m[b])
    {
      assert maskBytes[i] == m[i];
      min[i] := address[i] & maskBytes[i];
      max[i] := address[i] | !maskBytes[i];
      i := i + 1;
    }
  }

  method MaskOf(n: nat, mask: nat) returns (inBounds: bool, maskBytes: array<bv8>)
    ensures fresh(maskBytes) && maskBytes.Length == n && (inBounds <==> mask <= 8 * n)
    ensures inBounds ==> forall b :: 0 <= b < n ==> maskBytes[b] == HighBits(Filled(mask, b))
  {
    inBounds := true;
    maskBytes := new bv8[n](_ => 0);
    var i := 0;
    while i < mask
      invariant i <= mask && i <= 8 * n && fresh(maskBytes)
      invariant forall b :: 0 <= b < n ==> maskBytes[b] == HighBits(Filled(i, b))
    {
      var byteId, bitIndex := i / 8, 7 - i % 8;
      if byteId >= n {
        return false, maskBytes;
      }
      forall b | 0 <= b < n
        ensures Filled(i + 1, b) == if b == byteId then i % 8 + 1 else Filled(i, b)
      {
        FilledStep(i, b);
      }
      FilledStep(i, byteId);
      HighBitsGrow(i % 8);
      BitMaskIsShift(i % 8);
      maskBytes[byteId] := maskBytes[byteId] | ((1 as bv8) << bitIndex);
      i := i + 1;
    }
  }

  // ----- the interval -----

  predicate Between(low: bv8, x: bv8, high: bv8) {
    low <= x <= high
  }

  /** Byte by byte: a full byte fixes x, and from the first byte on that is not full the later ones are free. */
  ghost predicate Bounds(low: seq<bv8>, x: seq<bv8>, high: seq<bv8>, full: seq<bool>) {
    |low| == |x| == |high| == |full| &&
    (forall i :: 0 <= i < |x| && full[i] ==> low[i] == high[i]) &&
    forall i, j :: 0 <= i < j < |x| && !full[i] ==> low[j] == 0 && high[j] == 0xFF
  }

  ghost predicate AllBetween(low: seq<bv8>, x: seq<bv8>, high: seq<bv8>)
    requires |low| == |x| == |high|
  {
    forall i :: 0 <= i < |x| ==> Between(low[i], x[i], high[i])
  }

  lemma AllBetweenFront(low: seq<bv8>, x: seq<bv8>, high: seq<bv8>)
    requires |low| == |x| == |high| > 0
    ensures AllBetween(low, x, high) <==> Between(low[0], x[0], high[0]) && AllBetween(low[1..], x[1..], high[1..])
  {
    if AllBetween(low[1..], x[1..], high[1..]) && Between(low[0], x[0], high[0]) {
      forall i | 0 <= i < |x|
        ensures Between(low[i], x[i], high[i])
      {
        if i > 0 {
          assert Between(low[1..][i - 1], x[1..][i - 1], high[1..][i - 1]);
        }
      }
    }
  }

  /** Nothing is below zeros or above ones. */
  lemma {:induction false} FreeBytes(low: seq<bv8>, x: seq<bv8>, high: seq<bv8>)
    requires |low| == |x| == |high| && forall i :: 0 <= i < |x| ==> low[i] == 0 && high[i] == 0xFF
    ensures !BytesBelow(x, low) && !BytesBelow(high, x) && AllBetween(low, x, high)
    decreases |x|
  {
    if |x| > 0 {
      FreeBytes(low[1..], x[1..], high[1..]);
    }
  }

  /** For such bounds the interval in the order of addresses is the product of the intervals of the bytes. */
  lemma {:induction false} IntervalIsProduct(low: seq<bv8>, x: seq<bv8>, high: seq<bv8>, full: seq<bool>)
    requires Bounds(low, x, high, full)
    ensures !BytesBelow(x, low) && !BytesBelow(high, x) <==> AllBetween(low, x, high)
    decreases |x|
  {
    if |x| > 0 {
      AllBetweenFront(low, x, high);
      if full[0] {
        IntervalIsProduct(low[1..], x[1..], high[1..], full[1..]);
      } else {
        FreeBytes(low[1..], x[1..], high[1..]);
      }
    }
  }

  // ----- bits of addresses -----

  predicate Bit(a: seq<bv8>, j: nat)
    requires j < 8 * |a|
  {
    BitAt(a[j / 8], j % 8)
  }

  /** A byte lies between the ends of the range of x exactly if it has the same high bits. */
  lemma HighBitsRange(x: bv8, y: bv8, k: nat)
    requires k <= 8
    ensures Between(LowEnd(x, HighBits(k)), y, HighEnd(x, HighBits(k))) <==> MaskAgree(x, y, k)
  {
  }

  lemma ByteAgrees(x: bv8, y: bv8, k: nat)
    requires k <= 8
    ensures Between(LowEnd(x, HighBits(k)), y, HighEnd(x, HighBits(k))) <==> BitsAgree(x, y, k)
  {
    var between := Between(LowEnd(x, HighBits(k)), y, HighEnd(x, HighBits(k)));
    var masked, bits := MaskAgree(x, y, k), BitsAgree(x, y, k);
    assert between <==> masked by {
      HighBitsRange(x, y, k);
    }
    assert masked <==> bits by {
      HighBitsAgree(x, y, k);
    }
  }

  lemma Ends(x: bv8)
    ensures LowEnd(x, HighBits(8)) == HighEnd(x, HighBits(8))
    ensures LowEnd(x, HighBits(0)) == 0 && HighEnd(x, HighBits(0)) == 0xFF
  {
  }

  predicate BytesAgree(a: seq<bv8>, b: seq<bv8>, mask: nat)
    requires |a| == |b|
  {
    forall i :: 0 <= i < |a| ==> BitsAgree(a[i], b[i], Filled(mask, i))
  }

  lemma AgreeMeansBits(a: seq<bv8>, b: seq<bv8>, mask: nat)
    requires |a| == |b| && mask <= 8 * |a|
    ensures BytesAgree(a, b, mask) <==> forall j :: 0 <= j < mask ==> Bit(a, j) == Bit(b, j)
  {
    if BytesAgree(a, b, mask) {
      forall j | 0 <= j < mask
        ensures Bit(a, j) == Bit(b, j)
      {
        var i := j / 8;
        assert j == 8 * i + j % 8 && j % 8 < Filled(mask, i);
        assert BitsAgree(a[i], b[i], Filled(mask, i));
      }
    }
    if forall j :: 0 <= j < mask ==> Bit(a, j) == Bit(b, j) {
      forall i | 0 <= i < |a|
        ensures BitsAgree(a[i], b[i], Filled(mask, i))
      {
        forall k | 0 <= k < Filled(mask, i)
          ensures BitAt(a[i], k) == BitAt(b[i], k)
        {
          assert (8 * i + k) / 8 == i && (8 * i + k) % 8 == k && 8 * i + k < mask;
          assert Bit(a, 8 * i + k) == Bit(b, 8 * i + k);
        }
      }
    }
  }

  lemma CidrBytes(a: seq<bv8>, b: seq<bv8>, mask: nat)
    requires |a| == |b|
    ensures var m := MaskBytes(|a|, mask);
            !BytesBelow(b, MinBytes(a, m)) && !BytesBelow(MaxBytes(a, m), b) <==> BytesAgree(a, b, mask)
  {
    var m := MaskBytes(|a|, mask);
    var low, high := MinBytes(a, m), MaxBytes(a, m);
    var full := seq(|a|, i requires 0 <= i < |a| => Filled(mask, i) == 8);
    forall i | 0 <= i < |a|
      ensures Between(low[i], b[i], high[i]) <==> BitsAgree(a[i], b[i], Filled(mask, i))
      ensures full[i] ==> low[i] == high[i]
      ensures Filled(mask, i) == 0 ==> low[i] == 0 && high[i] == 0xFF
    {
      ByteAgrees(a[i], b[i], Filled(mask, i));
      Ends(a[i]);
    }
    assert forall i, j :: 0 <= i < j < |a| && !full[i] ==> Filled(mask, j) == 0;
    IntervalIsProduct(low, b, high, full);
  }

  /** A parsed range holds exactly the addresses of its family that agree with the given one on the first mask bits. */
  lemma RangeExact(address: Address, mask: nat, a: Address)
    requires mask <= 8 * |address|
    ensures Cidr(address, mask).DoesContain(a) <==>
              |a| == |address| && forall j :: 0 <= j < mask ==> Bit(address, j) == Bit(a, j)
  {
    if |a| == |address| {
      CidrBytes(address, a, mask);
      AgreeMeansBits(address, a, mask);
    }
  }
}
