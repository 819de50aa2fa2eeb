/** The compact serialization of a transaction's unspent outputs (coins.h, coins.cpp). */
module CoinsCodec {
  import opened Bytes
  import opened Digits
  import opened VarInt
  import opened Coins
  import opened Scripts

  ///////////////////////////////////////////////////////////////////////////////////////////////
  // Bit sets
  ///////////////////////////////////////////////////////////////////////////////////////////////

  predicate Live(vout: seq<TxOut>, i: nat) {
    i < |vout| && !vout[i].IsNull()
  }

  predicate NoneLive(vout: seq<TxOut>, lo: nat, hi: nat) {
    forall i :: lo <= i < hi ==> !Live(vout, i)
  }

  /** One bit for each of the outputs lo, ..., lo + k - 1. */
  function Packed(vout: seq<TxOut>, lo: nat, k: nat): nat {
    if k == 0 then 0 else Packed(vout, lo, k - 1) + if Live(vout, lo + k - 1) then Pow(2, k - 1) else 0
  }

  lemma {:induction false} PackedBound(vout: seq<TxOut>, lo: nat, k: nat)
    ensures Packed(vout, lo, k) < Pow(2, k)
    decreases k
  {
    if k > 0 {
      PackedBound(vout, lo, k - 1);
    }
  }

  /** Every bit of a packed byte is the liveness of its output. */
  lemma {:induction false} PackedBit(vout: seq<TxOut>, lo: nat, k: nat, p: nat)
    requires p < k
    ensures Pow(2, p) > 0 && (Bit(Packed(vout, lo, k), Pow(2, p)) <==> Live(vout, lo + p))
    decreases k
  {
    PackedBound(vout, lo, k - 1);
    hide Bit, Pow;
    if p < k - 1 {
      PackedBit(vout, lo, k - 1, p);
      HighBit(Packed(vout, lo, k - 1), p, k - 1);
    } else {
      TopBit(Packed(vout, lo, k - 1), Pow(2, p));
    }
  }

  lemma {:induction false} PackedZero(vout: seq<TxOut>, lo: nat, k: nat)
    ensures Packed(vout, lo, k) == 0 <==> NoneLive(vout, lo, lo + k)
    decreases k
  {
    if k > 0 {
      PackedZero(vout, lo, k - 1);
      PowPositive(2, k - 1);
    }
  }

  /** Outputs past the end of the array set no bits. */
  lemma {:induction false} PackedPastEnd(vout: seq<TxOut>, lo: nat, j: nat, k: nat)
    requires j <= k && (j == k || |vout| <= lo + j)
    ensures Packed(vout, lo, k) == Packed(vout, lo, j)
    decreases k
  {
    if j < k {
      PackedPastEnd(vout, lo, j, k - 1);
    }
  }

  ///////////////////////////////////////////////////////////////////////////////////////////////
  // The availability mask
  ///////////////////////////////////////////////////////////////////////////////////////////////

  /** Mask byte b covers the eight outputs from 2 + 8 b on. */
  function MaskByte(vout: seq<TxOut>, b: nat): (r: byte)
    ensures r == Packed(vout, 2 + b * 8, 8)
  {
    PackedBound(vout, 2 + b * 8, 8);
    ByteBits();
    Packed(vout, 2 + b * 8, 8)
  }

  /** The position after the last nonzero byte among the first b. */
  function LastUsed(vout: seq<TxOut>, b: nat): (n: nat)
    ensures n <= b && (n > 0 ==> MaskByte(vout, n - 1) != 0)
    ensures forall i :: n <= i < b ==> MaskByte(vout, i) == 0
  {
    if b == 0 then 0 else if MaskByte(vout, b - 1) != 0 then b else LastUsed(vout, b - 1)
  }

  /** How many of the first b bytes are not zero. */
  function Nonzero(vout: seq<TxOut>, b: nat): nat {
    if b == 0 then 0 else Nonzero(vout, b - 1) + if MaskByte(vout, b - 1) != 0 then 1 else 0
  }

  /** The number of bytes that cover the whole array. */
  function Width(vout: seq<TxOut>): nat {
    if |vout| <= 2 then 0 else (|vout| - 2 + 7) / 8
  }

  function MaskSize(vout: seq<TxOut>): nat {
    LastUsed(vout, Width(vout))
  }

  function Mask(vout: seq<TxOut>, b: nat, n: nat): seq<byte>
    requires b <= n
  {
    seq<byte>(n - b, i requires 0 <= i < n - b => MaskByte(vout, b + i))
  }

  /** Counts the mask bytes written and how many of them are not zero. */
  method CalcMaskSize(vout: seq<TxOut>) returns (nBytes: nat, nNonzeroBytes: nat)
    ensures nBytes == MaskSize(vout) && nNonzeroBytes == Nonzero(vout, Width(vout))
  {
    var b: nat := 0;
    nBytes, nNonzeroBytes := 0, 0;
    while 2 + b * 8 < |vout|
      invariant b <= Width(vout)
      invariant nBytes == LastUsed(vout, b) && nNonzeroBytes == Nonzero(vout, b)
      decreases |vout| - b * 8
    {
      var fZero := true;
      var i := 0;
      while i < 8 && 2 + b * 8 + i < |vout|
        invariant 0 <= i <= 8
        invariant fZero <==> NoneLive(vout, 2 + b * 8, 2 + b * 8 + i)
      {
        if !vout[2 + b * 8 + i].IsNull() {
          fZero := false;
        }
        assert Live(vout, 2 + b * 8 + i) <==> !vout[2 + b * 8 + i].IsNull();
        i := i + 1;
      }
      PackedZero(vout, 2 + b * 8, 8);
      assert NoneLive(vout, 2 + b * 8 + i, 2 + b * 8 + 8);
      assert fZero <==> MaskByte(vout, b) == 0;
      if !fZero {
        nBytes := b + 1;
        nNonzeroBytes := nNonzeroBytes + 1;
      }
      b := b + 1;
    }
  }

  lemma {:induction false} NonzeroGrows(vout: seq<TxOut>, a: nat, b: nat)
    requires a <= b
    ensures Nonzero(vout, a) <= Nonzero(vout, b)
    ensures Nonzero(vout, a) == Nonzero(vout, b) <==> forall i :: a <= i < b ==> MaskByte(vout, i) == 0
    decreases b
  {
    if a < b {
      NonzeroGrows(vout, a, b - 1);
    }
  }

  ghost function Flags(vout: seq<TxOut>, lo: nat, hi: nat): seq<bool>
    requires lo <= hi
  {
    seq(hi - lo, i requires 0 <= i < hi - lo => Live(vout, lo + i))
  }

  function FlagsOf(x: nat): seq<bool> {
    seq(8, p requires 0 <= p < 8 => PowPositive(2, p); Bit(x, Pow(2, p)))
  }

  /** What has been read so far, followed by what is still to come. */
  function Prepend<T>(done: seq<T>, more: Option<(seq<T>, seq<byte>)>): Option<(seq<T>, seq<byte>)> {
    if more.None? then None else Some((done + more.value.0, more.value.1))
  }

  lemma PrependTwice<T>(a: seq<T>, b: seq<T>, more: Option<(seq<T>, seq<byte>)>)
    ensures Prepend(a + b, more) == Prepend(a, Prepend(b, more)) && Prepend([], more) == more
    ensures forall s :: Prepend(a, Some(([], s))) == Some((a, s))
  {
    if more.Some? {
      assert a + b + more.value.0 == a + (b + more.value.0) && [] + more.value.0 == more.value.0;
    }
    assert a + [] == a;
  }

  /** Reads mask bytes until so many nonzero ones have been seen. */
  function ReadMask(stream: seq<byte>, nMaskCode: nat): Option<(seq<bool>, seq<byte>)> {
    if nMaskCode == 0 then Some(([], stream))
    else if stream == [] then None
    else
      Prepend(FlagsOf(stream[0]), ReadMask(stream[1..], if stream[0] != 0 then nMaskCode - 1 else nMaskCode))
  }

  lemma FlagsOfMaskByte(vout: seq<TxOut>, b: nat)
    ensures FlagsOf(MaskByte(vout, b)) == Flags(vout, 2 + b * 8, 2 + (b + 1) * 8)
  {
    forall p | 0 <= p < 8 ensures FlagsOf(MaskByte(vout, b))[p] == Live(vout, 2 + b * 8 + p) {
      PackedBit(vout, 2 + b * 8, 8, p);
    }
  }

  lemma FlagsSplit(vout: seq<TxOut>, a: nat, b: nat, c: nat)
    requires a <= b <= c
    ensures Flags(vout, a, c) == Flags(vout, a, b) + Flags(vout, b, c)
  {}

  lemma MaskHead(vout: seq<TxOut>, b: nat, n: nat, rest: seq<byte>)
    requires b < n
    ensures var stream := Mask(vout, b, n) + rest;
      stream != [] && stream[0] == MaskByte(vout, b) && stream[1..] == Mask(vout, b + 1, n) + rest
  {
    hide MaskByte;
  }

  lemma NonzeroStep(vout: seq<TxOut>, b: nat)
    ensures Nonzero(vout, b + 1) == Nonzero(vout, b) + if MaskByte(vout, b) != 0 then 1 else 0
  {}

  /** One mask byte read, whether it is zero or not. */
  lemma MaskStep(vout: seq<TxOut>, b: nat, n: nat, rest: seq<byte>, code: nat)
    requires b < n && code > 0
    ensures ReadMask(Mask(vout, b, n) + rest, code) ==
            Prepend(Flags(vout, 2 + b * 8, 2 + (b + 1) * 8),
                    ReadMask(Mask(vout, b + 1, n) + rest, if MaskByte(vout, b) != 0 then code - 1 else code))
  {
    hide MaskByte, FlagsOf, Flags, Mask, Prepend;
    FlagsOfMaskByte(vout, b);
    MaskHead(vout, b, n, rest);
  }

  /** Interior zero bytes are read too; reading stops right after the last byte written. */
  lemma {:induction false} MaskRoundTrip(vout: seq<TxOut>, b: nat, n: nat, rest: seq<byte>)
    requires b <= n && (n > 0 ==> MaskByte(vout, n - 1) != 0)
    ensures Nonzero(vout, b) <= Nonzero(vout, n)
    ensures ReadMask(Mask(vout, b, n) + rest, Nonzero(vout, n) - Nonzero(vout, b)) ==
            Some((Flags(vout, 2 + b * 8, 2 + n * 8), rest))
    decreases n - b
  {
    hide MaskByte, Nonzero, Flags, ReadMask, Mask;
    NonzeroGrows(vout, b, n);
    if b == n {
      NoMask(vout, b, rest);
    } else {
      MaskRoundTrip(vout, b + 1, n, rest);
      NonzeroStep(vout, b);
      MaskStep(vout, b, n, rest, Nonzero(vout, n) - Nonzero(vout, b));
      FlagsSplit(vout, 2 + b * 8, 2 + (b + 1) * 8, 2 + n * 8);
    }
  }

  lemma NoMask(vout: seq<TxOut>, b: nat, rest: seq<byte>)
    ensures ReadMask(Mask(vout, b, b) + rest, 0) == Some((Flags(vout, 2 + b * 8, 2 + b * 8), rest))
  {
    assert Mask(vout, b, b) + rest == rest;
    assert Flags(vout, 2 + b * 8, 2 + b * 8) == [];
  }

  ///////////////////////////////////////////////////////////////////////////////////////////////
  // The outputs
  ///////////////////////////////////////////////////////////////////////////////////////////////

  ghost predicate AllStorable(vout: seq<TxOut>) {
    forall i :: 0 <= i < |vout| ==> (if vout[i].IsNull() then vout[i] == NULL_OUT else Storable(vout[i]))
  }

  function OutsBytes(vout: seq<TxOut>, curve: Curve): seq<byte>
    requires AllStorable(vout)
  {
    if vout == [] then []
    else (if vout[0].IsNull() then [] else OutBytes(vout[0], curve)) + OutsBytes(vout[1..], curve)
  }

  /** Reads the available outputs; the others are null. */
  function ReadOuts(stream: seq<byte>, avail: seq<bool>, curve: Curve): Option<(seq<TxOut>, seq<byte>)>
    decreases avail
  {
    if avail == [] then Some(([], stream))
    else
      var out := if avail[0] then ReadOut(stream, NULL_OUT, curve) else Some((NULL_OUT, stream));
      if out.None? then None else Prepend([out.value.0], ReadOuts(out.value.1, avail[1..], curve))
  }

  function OutAt(vout: seq<TxOut>, i: nat): TxOut {
    if i < |vout| then vout[i] else NULL_OUT
  }

  function Padded(vout: seq<TxOut>, n: nat): seq<TxOut> {
    seq(n, i requires 0 <= i < n => OutAt(vout, i))
  }

  function Rest(vout: seq<TxOut>): seq<TxOut> {
    if vout == [] then [] else vout[1..]
  }

  /** The first output is taken off the stream exactly when it is live. */
  lemma FirstOut(vout: seq<TxOut>, more: seq<byte>, curve: Curve)
    requires Sound(curve) && AllStorable(vout)
    ensures AllStorable(Rest(vout))
    ensures var stream := OutsBytes(vout, curve) + more;
      (if Live(vout, 0) then ReadOut(stream, NULL_OUT, curve) else Some((NULL_OUT, stream))) ==
      Some((OutAt(vout, 0), OutsBytes(Rest(vout), curve) + more))
  {
    hide Sound, OutBytes, ReadOut;
    if Live(vout, 0) {
      OutRoundTrip(vout[0], OutsBytes(Rest(vout), curve) + more, NULL_OUT, curve);
      assert OutsBytes(vout, curve) + more == OutBytes(vout[0], curve) + (OutsBytes(Rest(vout), curve) + more);
    } else {
      assert OutsBytes(vout, curve) + more == OutsBytes(Rest(vout), curve) + more;
    }
  }

  lemma RestOf(vout: seq<TxOut>, n: nat)
    requires n > 0
    ensures Flags(vout, 0, n)[0] == Live(vout, 0) && Flags(vout, 0, n)[1..] == Flags(Rest(vout), 0, n - 1)
    ensures Padded(vout, n) == [OutAt(vout, 0)] + Padded(Rest(vout), n - 1)
  {}

  lemma {:induction false} OutsRoundTrip(vout: seq<TxOut>, n: nat, rest: seq<byte>, curve: Curve)
    requires Sound(curve) && AllStorable(vout) && NoneLive(vout, n, |vout|)
    ensures ReadOuts(OutsBytes(vout, curve) + rest, Flags(vout, 0, n), curve) == Some((Padded(vout, n), rest))
    decreases n
  {
    if n > 0 {
      FirstOut(vout, rest, curve);
      RestOf(vout, n);
      assert NoneLive(Rest(vout), n - 1, |Rest(vout)|) by {
        assert forall i :: 0 <= i < |Rest(vout)| ==> Rest(vout)[i] == vout[i + 1] && Live(vout, i + 1) == Live(Rest(vout), i);
      }
      hide Sound, AllStorable, ReadOut, OutsBytes, Flags, Padded, OutAt, Rest, NoneLive, Live;
      OutsRoundTrip(Rest(vout), n - 1, rest, curve);
    } else {
      assert forall i :: 0 <= i < |vout| ==> !Live(vout, i);
      NothingWritten(vout, curve);
      assert OutsBytes(vout, curve) + rest == rest;
      assert Flags(vout, 0, 0) == [] && Padded(vout, 0) == [];
    }
  }

  lemma {:induction false} NothingWritten(vout: seq<TxOut>, curve: Curve)
    requires AllStorable(vout) && NoneLive(vout, 0, |vout|)
    ensures OutsBytes(vout, curve) == []
    decreases vout
  {
    if vout != [] {
      assert !Live(vout, 0);
      assert forall i :: 0 <= i < |vout| - 1 ==> Live(vout[1..], i) == Live(vout, i + 1);
      NothingWritten(vout[1..], curve);
    }
  }

  ///////////////////////////////////////////////////////////////////////////////////////////////
  // The whole record
  ///////////////////////////////////////////////////////////////////////////////////////////////

  function Value(b: bool): nat {
    if b then 1 else 0
  }

  function CodeOf(k: int, a: nat, b: nat, c: nat, d: nat): int {
    16 * k + a + 2 * b + 4 * c + 8 * d
  }

  /** Flags in the low four bits; above them the nonzero mask bytes, less one when neither of the first two outputs is live. */
  function Code(c: CCoins): int {
    var (fFirst, fSecond) := (Live(c.vout, 0), Live(c.vout, 1));
    CodeOf(Nonzero(c.vout, Width(c.vout)) - (if fFirst || fSecond then 0 else 1),
           Value(c.coinBase), Value(c.coinStake), Value(fFirst), Value(fSecond))
  }

  /** What the chain can hold: every live output storable, spent ones blank, and counters within their fields. */
  ghost predicate Serializable(c: CCoins) {
    && !c.IsPruned() && AllStorable(c.vout)
    && c.height < 0x8000_0000 && c.version < 0x8000_0000 && |c.vout| <= 0x7fff_fff0
  }

  /** What is left of a record by writing it: of a negative height or version only the low seven bits. */
  function Kept(c: CCoins): CCoins {
    c.Trimmed().(height := Writable(c.height), version := Writable(c.version))
  }

  function CoinsBytes(c: CCoins, curve: Curve): seq<byte>
    requires AllStorable(c.vout) && Code(c) >= 0
  {
    VarIntOf(Writable(c.version)) + (VarIntOf(Code(c)) + (Mask(c.vout, 0, MaskSize(c.vout)) +
    (OutsBytes(c.vout, curve) + VarIntOf(Writable(c.height)))))
  }

  function ReadCoins(stream: seq<byte>, curve: Curve): Option<(CCoins, seq<byte>)> {
    var version := ReadIn(stream, UINT32_RANGE);
    if version.None? then None
    else
      var code := ReadIn(version.value.1, UINT32_RANGE);
      if code.None? then None
      else
        var nCode := code.value.0;
        var mask := ReadMask(code.value.1, nCode / 16 + if nCode / 4 % 4 != 0 then 0 else 1);
        if mask.None? then None
        else
          var outs := ReadOuts(mask.value.1, [nCode / 4 % 2 == 1, nCode / 8 % 2 == 1] + mask.value.0, curve);
          if outs.None? then None
          else
            var height := ReadIn(outs.value.1, UINT32_RANGE);
            if height.None? then None
            else
              var c := CCoins(nCode % 2 == 1, nCode / 2 % 2 == 1, outs.value.0,
                              ToInt32(height.value.0), ToInt32(version.value.0));
              Some((c.Trimmed(), height.value.1))
  }

  /** No output past the mask is live. */
  lemma MaskCovers(vout: seq<TxOut>)
    ensures NoneLive(vout, 2 + MaskSize(vout) * 8, |vout|)
    ensures MaskSize(vout) <= Width(vout) && (MaskSize(vout) > 0 ==> MaskByte(vout, MaskSize(vout) - 1) != 0)
    ensures Nonzero(vout, Width(vout)) == Nonzero(vout, MaskSize(vout))
    ensures Nonzero(vout, Width(vout)) <= Width(vout)
  {
    var n := MaskSize(vout);
    NonzeroGrows(vout, n, Width(vout));
    NonzeroBound(vout, Width(vout));
    forall i | 2 + n * 8 <= i < |vout| ensures !Live(vout, i) {
      var b := (i - 2) / 8;
      assert n <= b < Width(vout) && MaskByte(vout, b) == 0;
      PackedZero(vout, 2 + b * 8, 8);
    }
  }

  lemma {:induction false} NonzeroBound(vout: seq<TxOut>, b: nat)
    ensures Nonzero(vout, b) <= b
  {
    if b > 0 {
      NonzeroBound(vout, b - 1);
    }
  }

  /** The assertion of Serialize: an unpruned entry has a live output among the first two or a nonzero mask byte. */
  lemma CodeIsNatural(c: CCoins)
    requires !c.IsPruned()
    ensures Live(c.vout, 0) || Live(c.vout, 1) || Nonzero(c.vout, Width(c.vout)) > 0
    ensures Code(c) >= 0
  {
    MaskCovers(c.vout);
    if !Live(c.vout, 0) && !Live(c.vout, 1) && Nonzero(c.vout, Width(c.vout)) == 0 {
      NonzeroGrows(c.vout, 0, MaskSize(c.vout));
      var i :| 0 <= i < |c.vout| && !c.vout[i].IsNull();
      assert Live(c.vout, i);
      assert false;
    }
  }

  /** The four flags and the mask code come back out of the header code. */
  lemma CodeFields(k: nat, a: nat, b: nat, c: nat, d: nat)
    requires a < 2 && b < 2 && c < 2 && d < 2
    ensures var code := CodeOf(k, a, b, c, d);
      && code % 2 == a && code / 2 % 2 == b && code / 4 % 2 == c && code / 8 % 2 == d
      && code / 16 == k && (code / 4 % 4 != 0 <==> c + d > 0)
  {
    var code := CodeOf(k, a, b, c, d);
    assert code % 2 == a && code / 2 % 2 == b by {
      DivModOf(8 * k + b + 2 * c + 4 * d, a, 2);
      DivModOf(4 * k + c + 2 * d, b, 2);
    }
    assert code / 4 % 2 == c && code / 4 % 4 == c + 2 * d by {
      DivModOf(4 * k + c + 2 * d, a + 2 * b, 4);
      DivModOf(2 * k + d, c, 2);
      DivModOf(k, c + 2 * d, 4);
    }
    assert code / 8 % 2 == d by {
      DivModOf(2 * k + d, a + 2 * b + 4 * c, 8);
      DivModOf(k, d, 2);
    }
    DivModOf(k, a + 2 * b + 4 * c + 8 * d, 16);
  }

  lemma TrimmedAt(vout: seq<TxOut>, k: nat)
    requires k <= |vout| && (k > 0 ==> !vout[k - 1].IsNull()) && forall i :: k <= i < |vout| ==> vout[i].IsNull()
    ensures DropNullTail(vout) == vout[..k]
  {
    var r := DropNullTail(vout);
    hide DropNullTail;
    assert |r| > 0 ==> r[|r| - 1] == vout[|r| - 1];
  }

  lemma PaddedIs(vout: seq<TxOut>, n: nat, k: nat)
    requires k <= |vout| && (k > 0 ==> k <= n) && forall i :: k <= i < |vout| ==> vout[i].IsNull()
    ensures |Padded(vout, n)| == n && k <= n && Padded(vout, n)[..k] == vout[..k]
    ensures forall i :: k <= i < n ==> Padded(vout, n)[i].IsNull()
    ensures k > 0 ==> Padded(vout, n)[k - 1] == vout[k - 1]
  {}

  /** Dropping the null tail only looks at the live outputs. */
  lemma {:induction false} SameTrimmed(vout: seq<TxOut>, n: nat)
    requires NoneLive(vout, n, |vout|)
    ensures DropNullTail(Padded(vout, n)) == DropNullTail(vout)
  {
    hide DropNullTail, Padded;
    var k := |DropNullTail(vout)|;
    if k > 0 {
      assert Live(vout, k - 1);
    }
    PaddedIs(vout, n, k);
    TrimmedAt(Padded(vout, n), k);
    TrimmedAt(vout, k);
  }

  lemma FlagsWithFirst(vout: seq<TxOut>, n: nat)
    ensures [Live(vout, 0), Live(vout, 1)] + Flags(vout, 2, 2 + n) == Flags(vout, 0, 2 + n)
  {}

  lemma MaskRead(vout: seq<TxOut>, tail: seq<byte>)
    ensures ReadMask(Mask(vout, 0, MaskSize(vout)) + tail, Nonzero(vout, Width(vout))) ==
            Some((Flags(vout, 2, 2 + MaskSize(vout) * 8), tail))
  {
    MaskCovers(vout);
    MaskRoundTrip(vout, 0, MaskSize(vout), tail);
    assert Nonzero(vout, 0) == 0;
  }

  lemma HeaderRead(c: CCoins, tail: seq<byte>)
    requires !c.IsPruned()
    ensures Code(c) >= 0
    ensures var code := Code(c);
      && (code % 2 == 1 <==> c.coinBase) && (code / 2 % 2 == 1 <==> c.coinStake)
      && (code / 4 % 2 == 1 <==> Live(c.vout, 0)) && (code / 8 % 2 == 1 <==> Live(c.vout, 1))
      && code / 16 + (if code / 4 % 4 != 0 then 0 else 1) == Nonzero(c.vout, Width(c.vout))
    ensures ReadMask(Mask(c.vout, 0, MaskSize(c.vout)) + tail, Nonzero(c.vout, Width(c.vout))) ==
            Some((Flags(c.vout, 2, 2 + MaskSize(c.vout) * 8), tail))
  {
    CodeIsNatural(c);
    MaskRead(c.vout, tail);
    hide Mask, ReadMask, Flags, MaskSize, MaskByte, Live, Nonzero, Width;
    var first, second := Live(c.vout, 0), Live(c.vout, 1);
    CodeFields(Nonzero(c.vout, Width(c.vout)) - (if first || second then 0 else 1),
               Value(c.coinBase), Value(c.coinStake), Value(first), Value(second));
  }

  lemma Layout(c: CCoins, rest: seq<byte>, curve: Curve)
    requires AllStorable(c.vout) && Code(c) >= 0
    ensures CoinsBytes(c, curve) + rest ==
            VarIntOf(Writable(c.version)) + (VarIntOf(Code(c)) + (Mask(c.vout, 0, MaskSize(c.vout)) +
            (OutsBytes(c.vout, curve) + (VarIntOf(Writable(c.height)) + rest))))
  {
    hide VarIntOf, Mask, OutsBytes, Code;
  }

  /**
   Reading back what was written gives what is kept of the coins and leaves the rest of the stream.  That
   is the cleaned-up record exactly when neither the height nor the version is negative.
   */
  lemma CoinsRoundTrip(c: CCoins, rest: seq<byte>, curve: Curve)
    requires Sound(curve) && Serializable(c)
    ensures Code(c) >= 0 && ReadCoins(CoinsBytes(c, curve) + rest, curve) == Some((Kept(c), rest))
    ensures Kept(c) == c.Trimmed() <==> c.height >= 0 && c.version >= 0
  {
    hide VarIntOf, ReadIn, Mask, ReadMask, ReadOuts, OutsBytes, Code, Flags, Live, Padded, MaskSize, Nonzero, Width, Sound,
         AllStorable, NoneLive, DropNullTail, MaskByte, CoinsBytes;
    CodeIsNatural(c);
    var n := MaskSize(c.vout);
    var last := VarIntOf(Writable(c.height)) + rest;
    var outs := OutsBytes(c.vout, curve) + last;
    var mask := Mask(c.vout, 0, n) + outs;
    Layout(c, rest, curve);
    CodeFits(c);
    ReadWrittenIn(Writable(c.version), UINT32_RANGE, VarIntOf(Code(c)) + mask);
    ReadWrittenIn(Code(c), UINT32_RANGE, mask);
    HeaderRead(c, outs);
    FlagsWithFirst(c.vout, n * 8);
    MaskCovers(c.vout);
    OutsRoundTrip(c.vout, 2 + n * 8, last, curve);
    ReadWrittenIn(Writable(c.height), UINT32_RANGE, rest);
    SameTrimmed(c.vout, 2 + n * 8);
  }

  ///////////////////////////////////////////////////////////////////////////////////////////////
  // The code
  ///////////////////////////////////////////////////////////////////////////////////////////////

  method WriteMask(vout: seq<TxOut>, nMaskSize: nat) returns (s: seq<byte>)
    ensures s == Mask(vout, 0, nMaskSize)
  {
    s := [];
    for b := 0 to nMaskSize
      invariant s == Mask(vout, 0, b)
    {
      var chAvail: nat, i: nat := 0, 0;
      while i < 8 && 2 + b * 8 + i < |vout|
        invariant i <= 8 && chAvail == Packed(vout, 2 + b * 8, i)
      {
        // the bit is not set yet, so adding it is or-ing it
        if !vout[2 + b * 8 + i].IsNull() {
          chAvail := chAvail + Pow(2, i);
        }
        i := i + 1;
      }
      PackedPastEnd(vout, 2 + b * 8, i, 8);
      assert chAvail == MaskByte(vout, b);
      s := s + [chAvail];
    }
  }

  method WriteOuts(vout: seq<TxOut>, curve: Curve) returns (s: seq<byte>)
    requires AllStorable(vout)
    ensures s == OutsBytes(vout, curve)
  {
    hide OutsBytes, OutBytes, Storable, AllStorable;
    s := [];
    assert vout[0..] == vout;
    for i := 0 to |vout|
      invariant AllStorable(vout[i..]) && s + OutsBytes(vout[i..], curve) == OutsBytes(vout, curve)
    {
      ghost var before := s;
      OutsStep(vout, i, curve);
      if !vout[i].IsNull() {
        var out := SerializeOut(vout[i], curve);
        s := s + out;
        assert before + (out + OutsBytes(vout[i + 1..], curve)) == s + OutsBytes(vout[i + 1..], curve);
      }
    }
    NoOuts(curve);
    assert vout[|vout|..] == [] && s + [] == s;
  }

  lemma OutsStep(vout: seq<TxOut>, i: nat, curve: Curve)
    requires i < |vout| && AllStorable(vout[i..])
    ensures AllStorable(vout[i + 1..])
    ensures if vout[i].IsNull() then OutsBytes(vout[i..], curve) == OutsBytes(vout[i + 1..], curve)
      else Storable(vout[i]) && OutsBytes(vout[i..], curve) == OutBytes(vout[i], curve) + OutsBytes(vout[i + 1..], curve)
  {
    hide Storable, OutBytes;
    assert vout[i..][1..] == vout[i + 1..] && vout[i..][0] == vout[i];
    assert [] + OutsBytes(vout[i + 1..], curve) == OutsBytes(vout[i + 1..], curve);
  }

  lemma NoOuts(curve: Curve)
    ensures OutsBytes([], curve) == []
  {}

  /** The header code; the assertion of Serialize holds. */
  method HeaderCode(c: CCoins, nMaskCode: nat) returns (nCode: nat)
    requires !c.IsPruned() && nMaskCode == Nonzero(c.vout, Width(c.vout))
    ensures nCode == Code(c)
  {
    var fFirst := |c.vout| > 0 && !c.vout[0].IsNull();
    var fSecond := |c.vout| > 1 && !c.vout[1].IsNull();
    CodeIsNatural(c);
    hide Nonzero, Width;
    assert fFirst || fSecond || nMaskCode > 0;
    nCode := 16 * (nMaskCode - (if fFirst || fSecond then 0 else 1)) + (if c.coinBase then 1 else 0)
      + (if c.coinStake then 2 else 0) + (if fFirst then 4 else 0) + (if fSecond then 8 else 0);
  }

  method Serialize(c: CCoins, curve: Curve) returns (s: seq<byte>)
    requires Serializable(c)
    ensures Code(c) >= 0 && s == CoinsBytes(c, curve)
  {
    var nMaskSize, nMaskCode := CalcMaskSize(c.vout);
    var nCode := HeaderCode(c, nMaskCode);
    hide VarIntOf, Mask, OutsBytes, Code, Nonzero, Width, MaskSize;
    CodeFits(c);
    UnsignedBits(Writable(c.version));
    UnsignedBits(nCode);
    UnsignedBits(Writable(c.height));
    var version := WriteVarInt(c.version, 32);
    var code := WriteVarInt(nCode, 32);
    var mask := WriteMask(c.vout, nMaskSize);
    var outs := WriteOuts(c.vout, curve);
    var height := WriteVarInt(c.height, 32);
    s := version + (code + (mask + (outs + height)));
  }

  /** The header code never leaves its 32 bits. */
  lemma CodeFits(c: CCoins)
    requires |c.vout| <= 0x7fff_fff0
    ensures Code(c) < UINT32_RANGE
  {
    MaskCovers(c.vout);
  }

  method UnpackByte(chAvail: byte, before: seq<bool>) returns (vAvail: seq<bool>)
    ensures vAvail == before + FlagsOf(chAvail)
  {
    vAvail := before;
    var p: nat := 0;
    while p < 8
      invariant p <= 8 && vAvail == before + FlagsOf(chAvail)[..p]
    {
      PowPositive(2, p);
      vAvail := vAvail + [Bit(chAvail, Pow(2, p))];
      p := p + 1;
    }
  }

  method UnpackMask(stream: seq<byte>, nMaskCode: nat) returns (r: Option<(seq<bool>, seq<byte>)>)
    ensures r == ReadMask(stream, nMaskCode)
  {
    var vAvail: seq<bool>, s, left: nat := [], stream, nMaskCode;
    PrependTwice([], [], ReadMask(s, left));
    while left > 0
      invariant ReadMask(stream, nMaskCode) == Prepend(vAvail, ReadMask(s, left))
      decreases s
    {
      hide FlagsOf;
      if s == [] {
        return None;
      }
      var chAvail := s[0];
      ghost var before := vAvail;
      vAvail := UnpackByte(chAvail, vAvail);
      if chAvail != 0 {
        left := left - 1;
      }
      s := s[1..];
      PrependTwice(before, FlagsOf(chAvail), ReadMask(s, left));
    }
    PrependTwice(vAvail, [], None);
    return Some((vAvail, s));
  }

  method UnpackOuts(stream: seq<byte>, avail: seq<bool>, curve: Curve) returns (r: Option<(seq<TxOut>, seq<byte>)>)
    ensures r == ReadOuts(stream, avail, curve)
  {
    var vout, s := seq(|avail|, _ => NULL_OUT), stream;
    PrependTwice([], [], ReadOuts(stream, avail, curve));
    assert avail[0..] == avail;
    for i := 0 to |avail|
      invariant |vout| == |avail| && forall j :: i <= j < |vout| ==> vout[j] == NULL_OUT
      invariant ReadOuts(stream, avail, curve) == Prepend(vout[..i], ReadOuts(s, avail[i..], curve))
    {
      hide ReadOut;
      ghost var before := vout[..i];
      assert avail[i..][1..] == avail[i + 1..];
      if avail[i] {
        var out := UnserializeOut(s, vout[i], curve);
        if out.None? {
          return None;
        }
        vout, s := vout[i := out.value.0], out.value.1;
      }
      PrependTwice(before, [vout[i]], ReadOuts(s, avail[i + 1..], curve));
      assert vout[..i + 1] == before + [vout[i]];
    }
    assert vout[..|vout|] == vout;
    PrependTwice(vout, [], None);
    return Some((vout, s));
  }

  method Unserialize(stream: seq<byte>, curve: Curve) returns (r: Option<(CCoins, seq<byte>)>)
    ensures r == ReadCoins(stream, curve)
  {
    hide ReadIn, ReadMask, ReadOuts;
    var version := ReadVarInt(stream, UINT32_RANGE);
    if version.None? {
      return None;
    }
    var code := ReadVarInt(version.value.1, UINT32_RANGE);
    if code.None? {
      return None;
    }
    var nCode := code.value.0;
    var vAvail := [nCode / 4 % 2 == 1, nCode / 8 % 2 == 1];
    var nMaskCode := nCode / 16 + if nCode / 4 % 4 != 0 then 0 else 1;
    var mask := UnpackMask(code.value.1, nMaskCode);
    if mask.None? {
      return None;
    }
    var outs := UnpackOuts(mask.value.1, vAvail + mask.value.0, curve);
    if outs.None? {
      return None;
    }
    var height := ReadVarInt(outs.value.1, UINT32_RANGE);
    if height.None? {
      return None;
    }
    var c := Cleanup(CCoins(nCode % 2 == 1, nCode / 2 % 2 == 1, outs.value.0,
                            ToInt32(height.value.0), ToInt32(version.value.0)));
    return Some((c, height.value.1));
  }
}
