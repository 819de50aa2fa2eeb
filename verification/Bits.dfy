/** Bit strings, most significant bit first, and their packing into bytes. */
module Bits {
  import opened Digits

  /** The number a bit string stands for. */
  function Value(bits: seq<bool>): nat {
    if bits == [] then 0 else 2 * Value(bits[..|bits| - 1]) + if bits[|bits| - 1] then 1 else 0
  }

  /** The k lowest bits of a number. */
  function BitsOf(n: nat, k: nat): (bits: seq<bool>)
    ensures |bits| == k
  {
    if k == 0 then [] else BitsOf(n / 2, k - 1) + [n % 2 == 1]
  }

  lemma {:induction false} ValueBound(bits: seq<bool>)
    ensures Value(bits) < Pow(2, |bits|)
    decreases bits
  {
    if bits != [] {
      ValueBound(bits[..|bits| - 1]);
    }
  }

  lemma {:induction false} BitsOfValue(bits: seq<bool>)
    ensures BitsOf(Value(bits), |bits|) == bits
    decreases bits
  {
    if bits != [] {
      BitsOfValue(bits[..|bits| - 1]);
    }
  }

  lemma {:induction false} ValueOfBits(n: nat, k: nat)
    requires n < Pow(2, k)
    ensures Value(BitsOf(n, k)) == n
    decreases k
  {
    if k > 0 {
      ValueOfBits(n / 2, k - 1);
      assert BitsOf(n, k)[..k - 1] == BitsOf(n / 2, k - 1);
    }
  }

  lemma DivTwice(n: nat, m: nat)
    requires m > 0
    ensures n / 2 / m == n / (2 * m)
  {
    var (q, r) := (n / 2 / m, n / 2 % m);
    assert n / 2 == q * m + r;
    MulSwap(q, 2, m);
    assert n == q * (2 * m) + (2 * r + n % 2);
    DivModOf(q, 2 * r + n % 2, 2 * m);
  }

  /** Bit j of k, read off with a shift and a mask. */
  lemma {:induction false} BitAt(n: nat, k: nat, j: nat)
    requires j < k
    ensures Pow(2, k - 1 - j) > 0 && (BitsOf(n, k)[j] <==> n / Pow(2, k - 1 - j) % 2 == 1)
    decreases k
  {
    PowPositive(2, k - 1 - j);
    if j < k - 1 {
      BitAt(n / 2, k - 1, j);
      DivTwice(n, Pow(2, k - 2 - j));
    }
  }

  ///////////////////////////////////////////////////////////////////////////////////////////////
  // Bytes
  ///////////////////////////////////////////////////////////////////////////////////////////////

  function Weight(k: nat): bv8
    requires k < 8
  {
    if k == 0 then 0x80 else if k == 1 then 0x40 else if k == 2 then 0x20 else if k == 3 then 0x10
    else if k == 4 then 0x08 else if k == 5 then 0x04 else if k == 6 then 0x02 else 0x01
  }

  predicate Has(b: bv8, k: nat)
    requires k < 8
  {
    b & Weight(k) != 0
  }

  function ByteBits(b: bv8): (bits: seq<bool>)
    ensures |bits| == 8
  {
    [Has(b, 0), Has(b, 1), Has(b, 2), Has(b, 3), Has(b, 4), Has(b, 5), Has(b, 6), Has(b, 7)]
  }

  function Part(bit: bool, k: nat): bv8
    requires k < 8
  {
    if bit then Weight(k) else 0
  }

  function ByteOf(bits: seq<bool>): bv8
    requires |bits| == 8
  {
    Part(bits[0], 0) | Part(bits[1], 1) | Part(bits[2], 2) | Part(bits[3], 3)
    | Part(bits[4], 4) | Part(bits[5], 5) | Part(bits[6], 6) | Part(bits[7], 7)
  }

  lemma HasOf(bits: seq<bool>, k: nat)
    requires |bits| == 8 && k < 8
    ensures Has(ByteOf(bits), k) == bits[k]
  {}

  lemma SameBits(a: bv8, b: bv8)
    requires forall k :: 0 <= k < 8 ==> Has(a, k) == Has(b, k)
    ensures a == b
  {
    assert Has(a, 0) == Has(b, 0) && Has(a, 1) == Has(b, 1) && Has(a, 2) == Has(b, 2) && Has(a, 3) == Has(b, 3);
    assert Has(a, 4) == Has(b, 4) && Has(a, 5) == Has(b, 5) && Has(a, 6) == Has(b, 6) && Has(a, 7) == Has(b, 7);
  }

  /** Or-ing a bit into a byte sets that bit and no other. */
  lemma SetBit(b: bv8, p: nat, k: nat)
    requires p < 8 && k < 8
    ensures Has(b | Weight(p), k) <==> k == p || Has(b, k)
  {}

  function Unpack(bytes: seq<bv8>): (bits: seq<bool>)
    ensures |bits| == 8 * |bytes|
  {
    if bytes == [] then [] else ByteBits(bytes[0]) + Unpack(bytes[1..])
  }

  function Pack(bits: seq<bool>): (bytes: seq<bv8>)
    requires |bits| % 8 == 0
    ensures 8 * |bytes| == |bits|
  {
    if bits == [] then [] else [ByteOf(bits[..8])] + Pack(bits[8..])
  }

  lemma ByteBitsAt(b: bv8, k: nat)
    requires k < 8
    ensures ByteBits(b)[k] == Has(b, k)
  {}

  lemma {:induction false} UnpackAt(bytes: seq<bv8>, i: nat)
    requires i < 8 * |bytes|
    ensures Unpack(bytes)[i] == Has(bytes[i / 8], i % 8)
    decreases bytes
  {
    ByteBitsAt(bytes[0], i % 8);
    hide ByteBits, Has;
    if i >= 8 {
      UnpackAt(bytes[1..], i - 8);
      assert bytes[1..][(i - 8) / 8] == bytes[i / 8];
    }
  }

  lemma ByteBitsOf(b: seq<bool>)
    requires |b| == 8
    ensures ByteBits(ByteOf(b)) == b
  {
    forall k | 0 <= k < 8 ensures ByteBits(ByteOf(b))[k] == b[k] {
      HasOf(b, k);
    }
  }

  lemma {:induction false} UnpackPack(bits: seq<bool>)
    requires |bits| % 8 == 0
    ensures Unpack(Pack(bits)) == bits
    decreases bits
  {
    hide ByteBits, ByteOf;
    if bits != [] {
      UnpackPack(bits[8..]);
      ByteBitsOf(bits[..8]);
      assert Pack(bits)[1..] == Pack(bits[8..]);
      assert bits == bits[..8] + bits[8..];
    }
  }

  lemma {:induction false} PackedAt(bits: seq<bool>, j: nat, k: nat)
    requires |bits| % 8 == 0 && 8 * j < |bits| && k < 8
    ensures Has(Pack(bits)[j], k) == bits[8 * j + k]
  {
    hide Has, Pack, Unpack;
    UnpackPack(bits);
    UnpackAt(Pack(bits), 8 * j + k);
    assert (8 * j + k) / 8 == j && (8 * j + k) % 8 == k;
  }

  /** Bytes are determined by their bits. */
  lemma PackedBytes(bytes: seq<bv8>, bits: seq<bool>)
    requires |bits| == 8 * |bytes|
    requires forall j, k :: 0 <= j < |bytes| && 0 <= k < 8 ==> bits[8 * j + k] == Has(bytes[j], k)
    ensures Pack(bits) == bytes
  {
    hide Has, Pack;
    forall j | 0 <= j < |bytes| ensures Pack(bits)[j] == bytes[j] {
      forall k | 0 <= k < 8 ensures Has(Pack(bits)[j], k) == Has(bytes[j], k) {
        PackedAt(bits, j, k);
      }
      SameBits(Pack(bits)[j], bytes[j]);
    }
  }
}
