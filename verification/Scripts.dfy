/** Script and output compression (compressor.h, compressor.cpp) over byte strings. */
module Scripts {
  import opened Bytes
  import opened Digits
  import opened VarInt
  import opened Amounts
  import opened Coins

  const OP_DUP: byte := 0x76
  const OP_EQUAL: byte := 0x87
  const OP_EQUALVERIFY: byte := 0x88
  const OP_HASH160: byte := 0xa9
  const OP_CHECKSIG: byte := 0xac
  const SPECIAL_SCRIPTS := 6

  /** Point checking and decompression on the elliptic curve. */
  datatype Curve = Curve(isFullyValid: seq<byte> -> bool, decompress: seq<byte> -> Option<seq<byte>>)

  /** A decompressed key has 65 bytes, and decompressing the x coordinate and parity of a valid key gives it back. */
  ghost predicate Sound(curve: Curve) {
    && (forall c :: curve.decompress(c).Some? ==> |curve.decompress(c).value| == 65)
    && (forall k :: |k| == 65 && k[0] == 4 && curve.isFullyValid(k) ==>
                      curve.decompress([2 + k[64] % 2] + k[1..33]) == Some(k))
  }

  predicate IsToKeyID(s: seq<byte>) {
    |s| == 25 && s[0] == OP_DUP && s[1] == OP_HASH160 && s[2] == 20 && s[23] == OP_EQUALVERIFY && s[24] == OP_CHECKSIG
  }

  predicate IsToScriptID(s: seq<byte>) {
    |s| == 23 && s[0] == OP_HASH160 && s[1] == 20 && s[22] == OP_EQUAL
  }

  predicate IsToCompressedKey(s: seq<byte>) {
    |s| == 35 && s[0] == 33 && s[34] == OP_CHECKSIG && (s[1] == 0x02 || s[1] == 0x03)
  }

  predicate IsToFullKey(s: seq<byte>, curve: Curve) {
    |s| == 67 && s[0] == 65 && s[66] == OP_CHECKSIG && s[1] == 0x04 && curve.isFullyValid(s[1..66])
  }

  function Compress(s: seq<byte>, curve: Curve): Option<seq<byte>> {
    if IsToKeyID(s) then Some([0] + s[3..23])
    else if IsToScriptID(s) then Some([1] + s[2..22])
    else if IsToCompressedKey(s) then Some([s[1]] + s[2..34])
    else if IsToFullKey(s, curve) then Some([4 + s[65] % 2] + s[2..34])
    else None
  }

  function GetSpecialSize(nSize: nat): nat {
    if nSize == 0 || nSize == 1 then 20
    else if nSize == 2 || nSize == 3 || nSize == 4 || nSize == 5 then 32
    else 0
  }

  function Decompress(nSize: nat, data: seq<byte>, curve: Curve): Option<seq<byte>>
    requires |data| == GetSpecialSize(nSize)
  {
    if nSize == 0 then Some([OP_DUP, OP_HASH160, 20] + data + [OP_EQUALVERIFY, OP_CHECKSIG])
    else if nSize == 1 then Some([OP_HASH160, 20] + data + [OP_EQUAL])
    else if nSize == 2 || nSize == 3 then Some([33, nSize] + data + [OP_CHECKSIG])
    else if nSize == 4 || nSize == 5 then
      var key := curve.decompress([nSize - 2] + data);
      if key.None? then None else Some([65] + key.value + [OP_CHECKSIG])
    else None
  }

  /** A compressed script starts with its kind and has the size of that kind; decompressing it gives the script back. */
  lemma CompressUndoneBy(s: seq<byte>, curve: Curve)
    requires Sound(curve) && Compress(s, curve).Some?
    ensures var out := Compress(s, curve).value;
      && out != [] && out[0] < SPECIAL_SCRIPTS && |out| == 1 + GetSpecialSize(out[0])
      && Decompress(out[0], out[1..], curve) == Some(s)
  {
    var out := Compress(s, curve).value;
    if IsToKeyID(s) {
      assert s == [OP_DUP, OP_HASH160, 20] + out[1..] + [OP_EQUALVERIFY, OP_CHECKSIG];
    } else if IsToScriptID(s) {
      assert s == [OP_HASH160, 20] + out[1..] + [OP_EQUAL];
    } else if IsToCompressedKey(s) {
      assert s == [33, s[1]] + out[1..] + [OP_CHECKSIG];
    } else {
      FullKeyUndone(s, curve);
    }
  }

  lemma FullKeyUndone(s: seq<byte>, curve: Curve)
    requires Sound(curve) && IsToFullKey(s, curve)
    ensures Decompress(4 + s[65] % 2, s[2..34], curve) == Some(s)
  {
    var key := s[1..66];
    assert key[1..33] == s[2..34] && key[64] == s[65] && key[0] == s[1];
    assert s == [65] + key + [OP_CHECKSIG];
  }

  /** What Serialize writes. */
  function ScriptBytes(s: seq<byte>, curve: Curve): seq<byte> {
    var compr := Compress(s, curve);
    if compr.Some? then compr.value else VarIntOf(|s| + SPECIAL_SCRIPTS) + s
  }

  /** Takes n bytes off the front of a stream. */
  function Take(s: seq<byte>, n: nat): Option<(seq<byte>, seq<byte>)> {
    if |s| < n then None else Some((s[..n], s[n..]))
  }

  /** What Unserialize reads into a script that held `before`. */
  function ReadScript(stream: seq<byte>, before: seq<byte>, curve: Curve): Option<(seq<byte>, seq<byte>)> {
    var size := ReadIn(stream, UINT32_RANGE);
    if size.None? then None
    else
      var (nSize, rest) := size.value;
      if nSize < SPECIAL_SCRIPTS then
        var vch := Take(rest, GetSpecialSize(nSize));
        if vch.None? then None
        else
          var script := Decompress(nSize, vch.value.0, curve);
          Some((if script.Some? then script.value else before, vch.value.1))
      else Take(rest, nSize - SPECIAL_SCRIPTS)
  }

  lemma OneByteRead(k: byte, rest: seq<byte>)
    requires k < 128
    ensures ReadIn([k] + rest, UINT32_RANGE) == Some((k as nat, rest))
  {
    assert ([k] + rest)[1..] == rest;
  }

  /** Every script whose size fits its field is read back from what was written for it. */
  lemma ScriptRoundTrip(s: seq<byte>, rest: seq<byte>, before: seq<byte>, curve: Curve)
    requires Sound(curve) && |s| + SPECIAL_SCRIPTS < UINT32_RANGE
    ensures ReadScript(ScriptBytes(s, curve) + rest, before, curve) == Some((s, rest))
  {
    hide Compress, Decompress, VarIntOf, ReadIn, Sound, ReadScript;
    if Compress(s, curve).Some? {
      CompressUndoneBy(s, curve);
      SpecialRead(Compress(s, curve).value, rest, before, curve);
    } else {
      PlainRead(s, rest, before, curve);
      assert ScriptBytes(s, curve) + rest == VarIntOf(|s| + SPECIAL_SCRIPTS) + (s + rest);
    }
  }

  lemma SpecialRead(out: seq<byte>, rest: seq<byte>, before: seq<byte>, curve: Curve)
    requires out != [] && out[0] < SPECIAL_SCRIPTS && |out| == 1 + GetSpecialSize(out[0])
    requires Decompress(out[0], out[1..], curve).Some?
    ensures ReadScript(out + rest, before, curve) == Some((Decompress(out[0], out[1..], curve).value, rest))
  {
    hide Decompress, GetSpecialSize, ReadIn;
    assert out + rest == [out[0]] + (out[1..] + rest);
    OneByteRead(out[0], out[1..] + rest);
  }

  lemma PlainRead(s: seq<byte>, rest: seq<byte>, before: seq<byte>, curve: Curve)
    requires |s| + SPECIAL_SCRIPTS < UINT32_RANGE
    ensures ReadScript(VarIntOf(|s| + SPECIAL_SCRIPTS) + (s + rest), before, curve) == Some((s, rest))
  {
    hide Decompress, VarIntOf, ReadIn;
    ReadWrittenIn(|s| + SPECIAL_SCRIPTS, UINT32_RANGE, s + rest);
  }

  /** Special scripts shrink; the others cost one byte up to 121 bytes and two bytes up to 16505. */
  lemma ScriptSize(s: seq<byte>, curve: Curve)
    ensures var size := |ScriptBytes(s, curve)|;
      && (Compress(s, curve).Some? ==> size < |s|)
      && (Compress(s, curve).None? ==> (size == |s| + 1 <==> |s| <= 121) && (size == |s| + 2 <==> 121 < |s| <= 16505))
  {
    if Compress(s, curve).None? {
      VarIntSize(|s| + SPECIAL_SCRIPTS);
    }
  }

  lemma VarIntSize(n: nat)
    ensures |VarIntOf(n)| == 1 <==> n <= 127
    ensures |VarIntOf(n)| == 2 <==> 127 < n <= 16511
  {
    hide Groups;
    if n > 127 {
      GroupsSize(n / 128 - 1);
    }
  }

  lemma GroupsSize(m: nat)
    ensures |Groups(m)| >= 1 && (|Groups(m)| == 1 <==> m <= 127)
  {
    if m > 127 {
      assert |Groups(m / 128 - 1)| >= 1;
    }
  }

  /** CScriptCompressor: the referenced script is filled in place when read. */
  class CScriptCompressor {
    var script: seq<byte>
    const curve: Curve

    constructor (script: seq<byte>, curve: Curve)
      ensures this.script == script && this.curve == curve
    {
      this.script := script;
      this.curve := curve;
    }

    method Unpack(nSize: nat, data: seq<byte>) returns (ok: bool)
      requires |data| == GetSpecialSize(nSize)
      modifies this
      ensures ok == Decompress(nSize, data, curve).Some?
      ensures script == if ok then Decompress(nSize, data, curve).value else old(script)
    {
      if nSize == 0 {
        script := [OP_DUP, OP_HASH160, 20] + data + [OP_EQUALVERIFY, OP_CHECKSIG];
        return true;
      } else if nSize == 1 {
        script := [OP_HASH160, 20] + data + [OP_EQUAL];
        return true;
      } else if nSize == 2 || nSize == 3 {
        script := [33, nSize] + data + [OP_CHECKSIG];
        return true;
      } else if nSize == 4 || nSize == 5 {
        var key := curve.decompress([nSize - 2] + data);
        if key.None? {
          return false;
        }
        script := [65] + key.value + [OP_CHECKSIG];
        return true;
      }
      return false;
    }

    method Serialize() returns (stream: seq<byte>)
      requires |script| + SPECIAL_SCRIPTS < UINT32_RANGE
      ensures stream == ScriptBytes(script, curve)
    {
      var compr := Compress(script, curve);
      if compr.Some? {
        return compr.value;
      }
      UnsignedBits(|script| + SPECIAL_SCRIPTS);
      var size := WriteVarInt(|script| + SPECIAL_SCRIPTS, 32);
      return size + script;
    }

    /** Fails when the stream ends early. */
    method Unserialize(stream: seq<byte>) returns (ok: bool, rest: seq<byte>)
      modifies this
      ensures var r := ReadScript(stream, old(script), curve);
        ok == r.Some? && (ok ==> (script, rest) == r.value)
    {
      var size := ReadVarInt(stream, UINT32_RANGE);
      if size.None? {
        return false, [];
      }
      var (nSize, tail) := size.value;
      if nSize < SPECIAL_SCRIPTS {
        var vch := Take(tail, GetSpecialSize(nSize));
        if vch.None? {
          return false, [];
        }
        var unpacked := Unpack(nSize, vch.value.0);
        return true, vch.value.1;
      }
      var flat := Take(tail, nSize - SPECIAL_SCRIPTS);
      if flat.None? {
        return false, [];
      }
      script := flat.value.0;
      return true, flat.value.1;
    }
  }

  lemma ByteBits()
    ensures Pow(2, 8) == 256
  {}

  lemma UnsignedBits(n: nat)
    ensures n < UINT32_RANGE ==> n < Pow(2, 32)
    ensures n < UINT64_RANGE ==> n < Pow(2, 64)
  {
    hide Pow;
    ByteBits();
    PowAdd(2, 8, 8);
    PowAdd(2, 16, 16);
    PowAdd(2, 32, 32);
  }

  ///////////////////////////////////////////////////////////////////////////////////////////////
  // Outputs
  ///////////////////////////////////////////////////////////////////////////////////////////////

  /** An unspent output the chain can hold: the amount is in the money range and the script size fits its field. */
  predicate Storable(out: TxOut) {
    0 <= out.value <= MAX_MONEY && |out.script| + SPECIAL_SCRIPTS < UINT32_RANGE
  }

  function OutBytes(out: TxOut, curve: Curve): seq<byte>
    requires out.value >= 0
  {
    VarIntOf(Compressed(out.value)) + ScriptBytes(out.script, curve)
  }

  function ReadAmount(x: nat): int {
    ToInt64(Wrap(Decompressed(x)))
  }

  /** Reads an output into one that held `before`. */
  function ReadOut(stream: seq<byte>, before: TxOut, curve: Curve): Option<(TxOut, seq<byte>)> {
    var amount := ReadIn(stream, UINT64_RANGE);
    if amount.None? then None
    else
      var script := ReadScript(amount.value.1, before.script, curve);
      if script.None? then None
      else Some((TxOut(ReadAmount(amount.value.0), script.value.0), script.value.1))
  }

  lemma AmountRead(amount: nat)
    requires amount <= MAX_MONEY
    ensures ReadAmount(Compressed(amount)) == amount
  {
    hide Compressed, Decompressed;
    CompressFits(amount);
    CompressUndone(amount);
  }

  lemma OutRoundTrip(out: TxOut, rest: seq<byte>, before: TxOut, curve: Curve)
    requires Sound(curve) && Storable(out)
    ensures ReadOut(OutBytes(out, curve) + rest, before, curve) == Some((out, rest))
  {
    hide VarIntOf, ReadIn, ScriptBytes, ReadScript, Sound, Compressed, ReadAmount;
    var amount, script := VarIntOf(Compressed(out.value)), ScriptBytes(out.script, curve);
    assert OutBytes(out, curve) + rest == amount + (script + rest);
    CompressFits(out.value);
    ReadWrittenIn(Compressed(out.value), UINT64_RANGE, script + rest);
    ScriptRoundTrip(out.script, rest, before.script, curve);
    AmountRead(out.value);
  }

  method SerializeOut(out: TxOut, curve: Curve) returns (stream: seq<byte>)
    requires Storable(out)
    ensures stream == OutBytes(out, curve)
  {
    hide VarIntOf, ScriptBytes, Compressed;
    var nVal := CompressAmount(out.value);
    CompressFits(out.value);
    UnsignedBits(nVal);
    var amount := WriteVarInt(nVal, 64);
    var cscript := new CScriptCompressor(out.script, curve);
    var script := cscript.Serialize();
    return amount + script;
  }

  method UnserializeOut(stream: seq<byte>, before: TxOut, curve: Curve) returns (r: Option<(TxOut, seq<byte>)>)
    ensures r == ReadOut(stream, before, curve)
  {
    hide Read, ReadScript, Decompressed;
    var nVal := ReadVarInt(stream, UINT64_RANGE);
    if nVal.None? {
      return None;
    }
    var value := DecompressAmount(nVal.value.0);
    var cscript := new CScriptCompressor(before.script, curve);
    var ok, rest := cscript.Unserialize(nVal.value.1);
    if !ok {
      return None;
    }
    return Some((TxOut(ToInt64(value), cscript.script), rest));
  }
}
