/** The encodings byte for byte, on the examples that the repository's comments and tests give. */
module Formats {
  import opened Bytes
  import opened Digits
  import opened VarInt
  import opened Amounts
  import opened Coins
  import opened Scripts
  import opened CoinsCodec
  import B = Base58

  ///////////////////////////////////////////////////////////////////////////////////////////////
  // Integers and amounts
  ///////////////////////////////////////////////////////////////////////////////////////////////

  lemma OneByte(n: nat)
    requires n < 128
    ensures VarIntOf(n) == [n]
  {}

  lemma TwoBytes(m: nat, d: nat)
    requires m < 128 && d < 128
    ensures VarIntOf(m * 128 + 128 + d) == [m + 128, d]
  {
    var n := m * 128 + 128 + d;
    assert n / 128 == m + 1 && n % 128 == d;
  }

  /** One byte up to 127, two up to 16511, three up to 2113663. */
  lemma IntegerSizes(n: nat)
    ensures |VarIntOf(n)| == 1 <==> n <= 127
    ensures |VarIntOf(n)| == 2 <==> 127 < n <= 16511
    ensures |VarIntOf(n)| == 3 <==> 16511 < n <= 2113663
  {
    var m := n / 128;
    assert n > 127 ==> |VarIntOf(n)| == 1 + |Groups(m - 1)|;
    if n > 16511 {
      var k := (m - 1) / 128 - 1;
      assert |Groups(m - 1)| == 1 + |Groups(k)|;
      assert k <= 127 <==> n <= 2113663;
    }
  }

  lemma OneMark(d: nat)
    requires d < 128
    ensures Before(d + 1) == [d + 128]
  {
    MoreGroups(0, d);
    NothingBefore();
    hide Before;
    assert [] + [d + 128] == [d + 128];
  }

  lemma MoreMarks(n: nat, d: nat)
    requires d < 128
    ensures Before(n * 128 + d + 1) == Before(n) + [d + 128] && VarIntOf(n * 128 + d) == Before(n) + [d]
  {
    MoreGroups(n, d);
  }

  lemma LargeExamples()
    ensures VarIntOf(65535) == [0x82, 0xfe, 0x7f]
    ensures VarIntOf(0x1_0000_0000) == [0x8e, 0xfe, 0xfe, 0xff, 0x00]
  {
    hide VarIntOf, Before;
    OneMark(2);
    MoreMarks(3, 126);
    MoreMarks(511, 127);
    OneMark(14);
    MoreMarks(15, 126);
    MoreMarks(2047, 126);
    MoreMarks(262143, 127);
    MoreMarks(33554432, 0);
  }

  /** The examples of serialize.h; its comment has a byte too many for 16511 and a wrong one for 65535. */
  lemma IntegerExamples()
    ensures VarIntOf(0) == [0x00] && VarIntOf(1) == [0x01] && VarIntOf(127) == [0x7f]
    ensures VarIntOf(128) == [0x80, 0x00] && VarIntOf(255) == [0x80, 0x7f] && VarIntOf(256) == [0x81, 0x00]
    ensures VarIntOf(16383) == [0xfe, 0x7f] && VarIntOf(16384) == [0xff, 0x00] && VarIntOf(16511) == [0xff, 0x7f]
    ensures VarIntOf(65535) == [0x82, 0xfe, 0x7f]
    ensures VarIntOf(0x1_0000_0000) == [0x8e, 0xfe, 0xfe, 0xff, 0x00]
  {
    hide VarIntOf;
    OneByte(0);
    OneByte(1);
    OneByte(127);
    TwoBytes(0, 0);
    TwoBytes(0, 127);
    TwoBytes(1, 0);
    TwoBytes(126, 127);
    TwoBytes(127, 0);
    TwoBytes(127, 127);
    LargeExamples();
  }

  lemma NothingBefore()
    ensures Before(0) == []
  {}

  /** The pairs of compress_tests.cpp. */
  lemma AmountExamples()
    ensures Compressed(0) == 0 && Compressed(1) == 1 && Compressed(1_000_000) == 7 && Compressed(100_000_000) == 9
    ensures Compressed(5_000_000_000) == 0x32 && Compressed(2_100_000_000_000_000) == 0x1406f40
  {
    Stripping(1, 6);
    Stripping(1, 8);
    Stripping(5, 9);
    Stripping(2100000, 9);
    assert Pow(10, 6) == 1_000_000 && Pow(10, 8) == 100_000_000 && Pow(10, 9) == 1_000_000_000 by { PowersOfTen(); }
  }

  lemma PowersOfTen()
    ensures Pow(10, 6) == 1_000_000 && Pow(10, 8) == 100_000_000 && Pow(10, 9) == 1_000_000_000
  {
    assert Pow(10, 3) == 1000;
    PowAdd(10, 3, 3);
    PowAdd(10, 6, 3);
    assert Pow(10, 8) * 10 == Pow(10, 9);
  }

  lemma Stripping(n: nat, e: nat)
    requires n > 0 && e <= 9 && (e < 9 ==> n % 10 != 0)
    ensures Pow(10, e) > 0 && n * Pow(10, e) > 0
    ensures Compressed(n * Pow(10, e)) == CompressFrom(n, e)
  {
    hide Pow, CompressFrom;
    PowPositive(10, e);
    CompressShifted(n, e, 0);
  }

  ///////////////////////////////////////////////////////////////////////////////////////////////
  // Scripts and records
  ///////////////////////////////////////////////////////////////////////////////////////////////

  function PayToKeyHash(hash: seq<byte>): seq<byte> {
    [0x76, 0xa9, 20] + hash + [0x88, 0xac]
  }

  function PayToScriptHash(hash: seq<byte>): seq<byte> {
    [0xa9, 20] + hash + [0x87]
  }

  function PayToKey(key: seq<byte>): seq<byte>
    requires |key| < 256
  {
    [|key|] + key + [0xac]
  }

  /** The first byte of a special script says which of the six kinds it is; 4 and 5 are full keys by their parity. */
  lemma ScriptKinds(hash: seq<byte>, key: seq<byte>, curve: Curve)
    requires |hash| == 20
    ensures Compress(PayToKeyHash(hash), curve) == Some([0] + hash)
    ensures Compress(PayToScriptHash(hash), curve) == Some([1] + hash)
    ensures |key| == 33 && key[0] in {2, 3} ==> Compress(PayToKey(key), curve) == Some(key)
    ensures |key| == 65 && key[0] == 4 && curve.isFullyValid(key) ==>
      Compress(PayToKey(key), curve) == Some([4 + key[64] % 2] + key[1..33])
  {
    assert PayToKeyHash(hash)[3..23] == hash;
    assert PayToScriptHash(hash)[2..22] == hash;
    if |key| == 33 && key[0] in {2, 3} {
      assert [key[0]] + PayToKey(key)[2..34] == key;
    }
    if |key| == 65 && key[0] == 4 {
      assert PayToKey(key)[1..66] == key && PayToKey(key)[2..34] == key[1..33];
    }
  }

  /**
   The first example of coins.h.  The comment there is older than the coinstake flag: with the flag in the second
   bit the header code is 8 rather than 4.
   */
  lemma RecordExample(hash: seq<byte>, curve: Curve)
    requires |hash| == 20
    ensures var c := CCoins(false, false, [NULL_OUT, TxOut(60_000_000_000, PayToKeyHash(hash))], 203998, 1);
      && AllStorable(c.vout) && Code(c) == 8
      && CoinsBytes(c, curve) == [0x01, 0x08] + ([0x83, 0x58, 0x00] + hash) + [0x8b, 0xb8, 0x5e]
  {
    hide VarIntOf, Compress, Compressed;
    var out := TxOut(60_000_000_000, PayToKeyHash(hash));
    var c := CCoins(false, false, [NULL_OUT, out], 203998, 1);
    ScriptKinds(hash, hash, curve);
    RecordNumbers();
    assert OutBytes(out, curve) == [0x83, 0x58] + ([0] + hash);
    OneOutAfterNull(out, curve);
    hide OutBytes, OutsBytes, PayToKeyHash;
    assert Width(c.vout) == 0 && Nonzero(c.vout, 0) == 0;
    assert Mask(c.vout, 0, MaskSize(c.vout)) == [];
  }

  lemma OneOutAfterNull(out: TxOut, curve: Curve)
    requires Storable(out) && !out.IsNull()
    ensures AllStorable([NULL_OUT, out]) && OutsBytes([NULL_OUT, out], curve) == OutBytes(out, curve)
  {
    hide OutBytes;
    assert [NULL_OUT, out][1..] == [out] && [out][1..] == [];
    assert OutsBytes([], curve) == [];
    assert OutsBytes([out], curve) == OutBytes(out, curve) + [];
    assert OutsBytes([NULL_OUT, out], curve) == [] + OutsBytes([out], curve);
  }

  lemma RecordNumbers()
    ensures VarIntOf(1) == [0x01] && VarIntOf(8) == [0x08]
    ensures VarIntOf(Compressed(60_000_000_000)) == [0x83, 0x58]
    ensures VarIntOf(203998) == [0x8b, 0xb8, 0x5e]
  {
    hide VarIntOf, Before, Compressed;
    OneByte(1);
    OneByte(8);
    SixHundredCoins();
    TwoBytes(3, 88);
    OneMark(11);
    MoreMarks(12, 56);
    MoreMarks(1593, 94);
  }

  lemma SixHundredCoins()
    ensures Compressed(60_000_000_000) == 600
  {
    hide Pow, Compressed;
    Stripping(60, 9);
    PowersOfTen();
  }

  /** The header and the mask of the second example of coins.h, whose code is 17 with the coinstake flag. */
  lemma MaskExample(c: CCoins)
    requires c.coinBase && !c.coinStake && |c.vout| == 17
    requires forall i :: 0 <= i < 17 ==> (Live(c.vout, i) <==> i == 4 || i == 16)
    ensures Code(c) == 17 && Mask(c.vout, 0, MaskSize(c.vout)) == [0x04, 0x40]
  {
    BitPowers();
    OneBit(c.vout, 2, 8, 2);
    OneBit(c.vout, 10, 8, 6);
    assert MaskByte(c.vout, 0) == 4 && MaskByte(c.vout, 1) == 0x40;
    hide MaskByte;
    assert Width(c.vout) == 2 && Nonzero(c.vout, 0) == 0 && Nonzero(c.vout, 1) == 1 && Nonzero(c.vout, 2) == 2;
  }

  lemma BitPowers()
    ensures Pow(2, 2) == 4 && Pow(2, 6) == 0x40
  {
    assert Pow(2, 3) == 8;
    PowAdd(2, 3, 3);
  }

  lemma {:induction false} OneBit(vout: seq<TxOut>, lo: nat, k: nat, p: nat)
    requires forall i :: lo <= i < lo + k ==> (Live(vout, i) <==> i == lo + p)
    ensures Packed(vout, lo, k) == if p < k then Pow(2, p) else 0
    decreases k
  {
    if k > 0 {
      OneBit(vout, lo, k - 1, p);
    }
  }

  ///////////////////////////////////////////////////////////////////////////////////////////////
  // Base 58
  ///////////////////////////////////////////////////////////////////////////////////////////////

  /** The letters of the proper notation in base 58. */
  lemma EncodedBy(bytes: seq<byte>, digits: seq<nat>)
    requires Below(58, digits) && Proper(digits) && Num(58, digits) == Num(256, bytes)
    ensures |B.ALPHABET| == 58 && B.Encode(bytes) == B.Repeat('1', Zeros(bytes)) + B.Letters(digits)
  {
    hide B.ALPHABET;
    B.AlphabetAscends();
    ProperIsRepr(58, digits);
  }

  lemma NumOfThree(b: nat, x: nat, y: nat, z: nat)
    ensures Num(b, [x]) == x && Num(b, [x, y]) == x * b + y && Num(b, [x, y, z]) == (x * b + y) * b + z
  {
    assert [x][..0] == [] && [x, y][..1] == [x] && [x, y, z][..2] == [x, y];
  }

  lemma NumOfFour(b: nat, w: nat, x: nat, y: nat, z: nat)
    ensures Num(b, [w, x, y, z]) == ((w * b + x) * b + y) * b + z
  {
    NumOfThree(b, w, x, y);
    assert [w, x, y, z][..3] == [w, x, y];
  }

  /** Three pairs of base58_encode_decode.json: one byte, three bytes and ten zeros. */
  lemma Base58Examples()
    ensures B.Encode([0x61]) == "2g"
    ensures B.Encode([0x62, 0x62, 0x62]) == "a3gV"
    ensures B.Encode([0, 0, 0, 0, 0, 0, 0, 0, 0, 0]) == "1111111111"
  {
    hide B.Encode, Num;
    NumOfThree(256, 0x61, 0, 0);
    NumOfThree(58, 1, 39, 0);
    EncodedBy([0x61], [1, 39]);
    NumOfThree(256, 0x62, 0x62, 0x62);
    NumOfFour(58, 33, 2, 39, 28);
    EncodedBy([0x62, 0x62, 0x62], [33, 2, 39, 28]);
    var none: seq<byte> := [0, 0, 0, 0, 0, 0, 0, 0, 0, 0];
    B.NumAllZeros(256, none);
    B.NumAllZeros(58, []);
    EncodedBy(none, []);
    SomeLetters();
    assert Zeros([0x61]) == 0 && Zeros([0x62, 0x62, 0x62]) == 0;
    AllZeros(none);
  }

  lemma {:induction false} AllZeros(s: seq<nat>)
    requires forall i :: 0 <= i < |s| ==> s[i] == 0
    ensures Zeros(s) == |s|
    decreases s
  {
    if s != [] {
      AllZeros(s[1..]);
    }
  }

  lemma SomeLetters()
    ensures |B.ALPHABET| == 58 && B.Letters([]) == ""
    ensures B.Letters([1, 39]) == "2g" && B.Letters([33, 2, 39, 28]) == "a3gV"
    ensures B.Repeat('1', 0) == "" && B.Repeat('1', 10) == "1111111111"
  {}
}
