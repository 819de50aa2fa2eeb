/** Variable-length integers (serialize.h): base 128, most significant group first, no redundancy. */
module VarInt {
  import opened Bytes
  import opened Digits

  /** The groups above the last one; each is marked and stands for one more than its bits say. */
  function Groups(m: nat): seq<byte> {
    (if m <= 127 then [] else Groups(m / 128 - 1)) + [m % 128 + 128]
  }

  /** The groups that leave the value n before the next one is read. */
  function Before(n: nat): seq<byte> {
    if n == 0 then [] else Groups(n - 1)
  }

  function VarIntOf(n: nat): seq<byte> {
    Before(n / 128) + [n % 128]
  }

  lemma MoreGroups(n: nat, d: nat)
    requires d < 128
    ensures Before(n * 128 + d + 1) == Before(n) + [d + 128]
    ensures VarIntOf(n * 128 + d) == Before(n) + [d]
  {
    var m := n * 128 + d;
    assert m / 128 == n && m % 128 == d;
  }

  /** Reads an integer, given the value of the groups read so far. */
  function ReadFrom(s: seq<byte>, n: nat): Option<(nat, seq<byte>)> {
    if s == [] then None
    else if s[0] >= 128 then ReadFrom(s[1..], n * 128 + s[0] % 128 + 1)
    else Some((n * 128 + s[0], s[1..]))
  }

  function Read(s: seq<byte>): Option<(nat, seq<byte>)> {
    ReadFrom(s, 0)
  }

  /** The same in an unsigned type that holds the numbers below `range`: what does not fit wraps. */
  function ReadIn(s: seq<byte>, range: nat): Option<(nat, seq<byte>)>
    requires range > 0
  {
    var r := Read(s);
    if r.None? then None else Some((r.value.0 % range, r.value.1))
  }

  const UINT32_RANGE: nat := 0x1_0000_0000

  /** The signed number with the same 32 bits. */
  function ToInt32(n: nat): int {
    if n < 0x8000_0000 then n else n - UINT32_RANGE
  }

  /** The number that writing a signed one leaves: of a negative one only the low seven bits. */
  function Writable(n: int): nat {
    if n < 0 then n % 128 else n
  }

  /** Both agree with the number in the bits they keep. */
  lemma SignedIs(n: nat, m: int)
    requires n < UINT32_RANGE
    ensures -0x8000_0000 <= ToInt32(n) < 0x8000_0000 && (ToInt32(n) == n || ToInt32(n) + UINT32_RANGE == n)
    ensures if m < 0 then Writable(m) < 128 && (m - Writable(m)) % 128 == 0 else Writable(m) == m
  {}

  lemma {:induction false} ReadGroups(n: nat, rest: seq<byte>)
    ensures ReadFrom(Before(n) + rest, 0) == ReadFrom(rest, n)
    decreases n
  {
    hide *;
    if n == 0 {
      NoGroups(rest);
    } else {
      var q, d := HighAndLow(n - 1);
      LastGroupApart(q, d, rest);
      ReadGroups(q, [d + 128] + rest);
      ReadMarked(q, d, rest);
    }
  }

  lemma NoGroups(rest: seq<byte>)
    ensures Before(0) + rest == rest
  {}

  lemma LastGroupApart(n: nat, d: nat, rest: seq<byte>)
    requires d < 128
    ensures Before(n * 128 + d + 1) + rest == Before(n) + ([d + 128] + rest)
  {
    MoreGroups(n, d);
    hide Groups, Before;
  }

  lemma HighAndLow(n: nat) returns (q: nat, d: nat)
    ensures n == q * 128 + d && d < 128
  {
    q, d := n / 128, n % 128;
  }

  lemma ReadMarked(n: nat, d: nat, rest: seq<byte>)
    requires d < 128
    ensures ReadFrom([d + 128] + rest, n) == ReadFrom(rest, n * 128 + d + 1)
  {
    assert ([d + 128] + rest)[1..] == rest;
  }

  /** Reading what was written gives the number back and consumes nothing else. */
  lemma ReadWritten(n: nat, rest: seq<byte>)
    ensures Read(VarIntOf(n) + rest) == Some((n, rest))
  {
    hide Groups, Before;
    var more := [n % 128] + rest;
    assert VarIntOf(n) + rest == Before(n / 128) + more;
    ReadGroups(n / 128, more);
    assert more[1..] == rest;
  }

  lemma ReadWrittenIn(n: nat, range: nat, rest: seq<byte>)
    requires n < range
    ensures ReadIn(VarIntOf(n) + rest, range) == Some((n, rest))
  {
    hide VarIntOf, Read;
    ReadWritten(n, rest);
  }

  /** Every byte string that reads as a number is the one written for it. */
  lemma {:induction false} WrittenRead(s: seq<byte>, n: nat)
    requires ReadFrom(s, n).Some?
    ensures var (v, rest) := ReadFrom(s, n).value;
      Before(n) + s == VarIntOf(v) + rest
    decreases s
  {
    hide Groups, Before, VarIntOf;
    var d, tail := s[0] % 128, s[1..];
    MoreGroups(n, d);
    assert Before(n) + s == Before(n) + [s[0]] + tail;
    if s[0] >= 128 {
      WrittenRead(tail, n * 128 + d + 1);
    }
  }

  /** One integer, one encoding. */
  lemma OneEncoding(s: seq<byte>)
    ensures Read(s).Some? ==> s == VarIntOf(Read(s).value.0) + Read(s).value.1
  {
    if Read(s).Some? {
      WrittenRead(s, 0);
      assert Before(0) + s == s;
    }
  }

  function Backwards(s: seq<byte>): seq<byte> {
    if s == [] then [] else [s[|s| - 1]] + Backwards(s[..|s| - 1])
  }

  /** What is still to be written once len groups are in the buffer and n is left. */
  function Remaining(len: nat, n: nat): seq<byte> {
    if len == 0 then VarIntOf(n) else Groups(n)
  }

  /** One group fewer to write; a value of so many bits always leaves room for the next group. */
  lemma NextGroup(len: nat, n: nat, e: nat)
    requires n > 127 && n < Pow(2, e)
    ensures e >= 8 && n / 128 - 1 < Pow(2, e - 7)
    ensures Remaining(len, n) == Remaining(len + 1, n / 128 - 1) + [n % 128 + if len == 0 then 0 else 128]
  {
    assert Pow(2, 7) == 128;
    if e < 8 {
      PowMonoExp(2, e, 7);
    }
    PowAdd(2, 7, e - 7);
  }

  lemma BackwardsTo(s: seq<byte>, t: seq<byte>, len: nat)
    requires len < |s| && len < |t| && s[..len] == t[..len]
    ensures Backwards(t[..len + 1]) == [t[len]] + Backwards(s[..len])
  {
    assert t[..len + 1][..len] == t[..len];
  }

  /**
   Fills a buffer with the groups, least significant first, and writes it backwards; it is wide enough.
   A negative number passes for a small one, so only its low seven bits are written.
   */
  method WriteVarInt(value: int, bits: nat) returns (os: seq<byte>)
    requires bits > 0 && value < Pow(2, bits)
    ensures os == VarIntOf(Writable(value))
  {
    hide Pow, Groups, Before, VarIntOf, Remaining, Backwards;
    var n: int, len: nat := value, 0;
    var tmp := new byte[(bits + 6) / 7];
    assert VarIntOf(Writable(value)) == Remaining(0, Writable(n)) + Backwards(tmp[..0]) by {
      FirstGroup(Writable(n), tmp[..0]);
    }
    while n > 127
      invariant 7 * len < bits && n < Pow(2, bits - 7 * len)
      invariant VarIntOf(Writable(value)) == Remaining(len, Writable(n)) + Backwards(tmp[..len])
      decreases n
    {
      ghost var before := tmp[..];
      NextGroup(len, n, bits - 7 * len);
      tmp[len] := n % 128 + if len == 0 then 0 else 128;
      BackwardsTo(before, tmp[..], len);
      assert tmp[..][..len + 1] == tmp[..len + 1] && before[..len] == tmp[..len];
      n := n / 128 - 1;
      len := len + 1;
    }
    ghost var before := tmp[..];
    tmp[len] := n % 128 + if len == 0 then 0 else 128;
    LastGroup(len, Writable(n));
    BackwardsTo(before, tmp[..], len);
    assert tmp[..][..len + 1] == tmp[..len + 1] && before[..len] == tmp[..len];
    os := WriteBackwards(tmp, len + 1);
  }

  method WriteBackwards(tmp: array<byte>, size: nat) returns (os: seq<byte>)
    requires size <= tmp.Length
    ensures os == Backwards(tmp[..size])
  {
    os := [];
    var len := size;
    while len > 0
      invariant 0 <= len <= size && os + Backwards(tmp[..len]) == Backwards(tmp[..size])
    {
      len := len - 1;
      assert tmp[..len + 1][..len] == tmp[..len];
      os := os + [tmp[len]];
    }
  }

  lemma FirstGroup(n: nat, none: seq<byte>)
    requires none == []
    ensures Remaining(0, n) + Backwards(none) == VarIntOf(n)
  {}

  lemma LastGroup(len: nat, n: nat)
    requires n <= 127
    ensures Remaining(len, n) == [n + if len == 0 then 0 else 128]
  {}

  /** One group more, in a type that wraps. */
  lemma NextIn(m: nat, d: nat, range: nat)
    requires range > 0
    ensures (m % range * 128 + d) % range == (m * 128 + d) % range
    ensures (m % range + 1) % range == (m + 1) % range
  {
    var q, r := m / range, m % range;
    assert m == q * range + r;
    MulSwap(128, q, range);
    assert m * 128 + d == r * 128 + d + q * 128 * range && m + 1 == r + 1 + q * range;
    AddMultiple(r * 128 + d, q * 128, range);
    AddMultiple(r + 1, q, range);
  }

  lemma ReadTurn(s: seq<byte>, i: nat, m: nat)
    requires i < |s|
    ensures var n := m * 128 + s[i] % 128;
      ReadFrom(s[i..], m) == if s[i] >= 128 then ReadFrom(s[i + 1..], n + 1) else Some((n, s[i + 1..]))
  {
    assert s[i..][1..] == s[i + 1..];
  }

  lemma ReadNothing(m: nat)
    ensures ReadFrom([], m) == None
  {}

  /** Reads into a type that holds the numbers below `range`, which wraps in every turn. */
  method ReadVarInt(s: seq<byte>, range: nat) returns (r: Option<(nat, seq<byte>)>)
    requires range > 0
    ensures r == ReadIn(s, range)
  {
    hide ReadFrom;
    var n: nat, i: nat := 0, 0;
    ghost var m: nat := 0;
    assert s[0..] == s;
    while i < |s|
      invariant 0 <= i <= |s| && n == m % range && Read(s) == ReadFrom(s[i..], m)
    {
      ReadTurn(s, i, m);
      NextIn(m, s[i] % 128, range);
      n := (n * 128 + s[i] % 128) % range;
      m := m * 128 + s[i] % 128;
      if s[i] >= 128 {
        NextIn(m, 0, range);
        n := (n + 1) % range;
        m := m + 1;
      } else {
        return Some((n, s[i + 1..]));
      }
      i := i + 1;
    }
    assert s[|s|..] == [];
    ReadNothing(m);
    return None;
  }
}
