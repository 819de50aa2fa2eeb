/** The Base58 codec of base58.cpp: its buffers, its loops, and the bijection they compute. */
module Base58 {
  import opened Bytes
  import opened Digits

  /** The digits of the notation: figures and letters that are not easily taken for each other. */
  const ALPHABET: string := "123456789" + "ABCDEFGH" + "JKLMN" + "PQRSTUVWXYZ" + "abcdefghijk" + "mnopqrstuvwxyz"

  predicate IsSpace(c: char) {
    c == ' ' || 9 <= c as int <= 13
  }

  lemma AlphabetAscends()
    ensures |ALPHABET| == 58 && (forall i :: 0 <= i < 57 ==> ALPHABET[i] < ALPHABET[i + 1])
  {}

  /** The position of a character in the alphabet, from `n` on, or -1. */
  function Search(c: char, n: nat): (r: int)
    requires n <= |ALPHABET|
    ensures -1 <= r < |ALPHABET|
    ensures if r >= 0 then ALPHABET[r] == c else forall i :: n <= i < |ALPHABET| ==> ALPHABET[i] != c
    decreases |ALPHABET| - n
  {
    if n == |ALPHABET| then -1 else if ALPHABET[n] == c then n else Search(c, n + 1)
  }

  function IndexOf(c: char): int { Search(c, 0) }

  lemma {:induction false} Ascending(i: nat, j: nat)
    requires i < j < 58 && |ALPHABET| == 58
    ensures ALPHABET[i] < ALPHABET[j]
    decreases j - i
  {
    AlphabetAscends();
    hide *;
    if i + 1 < j {
      Ascending(i, j - 1);
      assert ALPHABET[j - 1] < ALPHABET[j - 1 + 1];
    }
  }

  lemma NotSpace(i: nat)
    requires i < 58 && |ALPHABET| == 58
    ensures !IsSpace(ALPHABET[i])
  {
    assert ALPHABET[0] == '1';
    hide ALPHABET;
    if i > 0 {
      Ascending(0, i);
    }
  }

  /** Letters and digits correspond one to one. */
  lemma IndexOfLetter(i: nat)
    requires i < 58
    ensures |ALPHABET| == 58 && IndexOf(ALPHABET[i]) == i && !IsSpace(ALPHABET[i])
  {
    AlphabetAscends();
    NotSpace(i);
    hide IsSpace;
    var r := IndexOf(ALPHABET[i]);
    if 0 <= r < i {
      Ascending(r, i);
    } else if i < r {
      Ascending(i, r);
    }
  }

  ///////////////////////////////////////////////////////////////////////////////////////////////
  // The specification
  ///////////////////////////////////////////////////////////////////////////////////////////////

  function Repeat<T>(x: T, n: nat): seq<T> {
    seq(n, _ => x)
  }

  function Letters(ds: seq<nat>): string
    requires |ALPHABET| == 58 && forall i :: 0 <= i < |ds| ==> ds[i] < 58
  {
    seq(|ds|, i requires 0 <= i < |ds| => ALPHABET[ds[i]])
  }

  function Indexes(s: string): seq<nat>
    requires forall i :: 0 <= i < |s| ==> IndexOf(s[i]) >= 0
  {
    seq(|s|, i requires 0 <= i < |s| => IndexOf(s[i]))
  }

  ghost predicate InAlphabet(s: string) {
    forall i :: 0 <= i < |s| ==> IndexOf(s[i]) >= 0
  }

  /** A '1' for each leading zero byte, then the number in base 58. */
  ghost function Encode(bytes: seq<byte>): string {
    AlphabetAscends();
    ReprIsProper(58, Num(256, bytes));
    Repeat('1', Zeros(bytes)) + Letters(Repr(58, Num(256, bytes)))
  }

  /** The first position from `n` on that holds a space, or does not, or the end. */
  function Skip(s: string, n: nat, spaces: bool): (r: nat)
    requires n <= |s|
    ensures n <= r <= |s| && (forall i :: n <= i < r ==> IsSpace(s[i]) == spaces)
    ensures r < |s| ==> IsSpace(s[r]) != spaces
    decreases |s| - n
  {
    if n == |s| || IsSpace(s[n]) != spaces then n else Skip(s, n + 1, spaces)
  }

  /** The bytes of one word over the alphabet. */
  ghost function DecodeWord(w: string): seq<nat>
    requires InAlphabet(w)
  {
    Repeat(0, Zeros(Indexes(w))) + Repr(256, Num(58, Indexes(w)))
  }

  /** Spaces, one word over the alphabet, spaces; anything else is an error. */
  ghost function Decode(s: string): Option<seq<nat>> {
    var start := Skip(s, 0, true);
    var end := Skip(s, start, false);
    if InAlphabet(s[start..end]) && Skip(s, end, true) == |s| then Some(DecodeWord(s[start..end])) else None
  }

  ///////////////////////////////////////////////////////////////////////////////////////////////
  // Decoding undoes encoding, and the other way around
  ///////////////////////////////////////////////////////////////////////////////////////////////

  /** Zeros in front of a proper notation neither merge with it nor change its value. */
  lemma ZerosThenProper(b: nat, z: nat, n: nat)
    requires b >= 2
    ensures var ds := Repeat(0, z) + Repr(b, n);
      Below(b, ds) && Zeros(ds) == z && Num(b, ds) == n
  {
    hide Repr, Num, Zeros;
    ReprIsProper(b, n);
    var proper := Repr(b, n);
    var ds := Repeat<nat>(0, z) + proper;
    assert ds[z..] == proper;
    NumIgnoresZeros(b, ds, z);
    ZerosBefore(z, proper);
  }

  lemma {:induction false} ZerosBefore(z: nat, proper: seq<nat>)
    requires Proper(proper)
    ensures Zeros(Repeat(0, z) + proper) == z
  {
    var ds := Repeat<nat>(0, z) + proper;
    if proper != [] {
      assert ds[z] == proper[0];
    }
  }

  /** The number and the zeros of a notation determine it. */
  lemma {:induction false} ZerosAndNumber(b: nat, ds: seq<nat>)
    requires b >= 2 && Below(b, ds)
    ensures Repeat(0, Zeros(ds)) + Repr(b, Num(b, ds)) == ds
  {
    hide Repr, Num, Zeros;
    var z := Zeros(ds);
    StripIsRepr(b, ds, z);
    assert ds == ds[..z] + ds[z..];
    assert Repeat(0, z) == ds[..z];
  }

  /** Encoding writes the letters of the zeros and the number. */
  lemma {:induction false} EncodeIsLetters(bytes: seq<byte>)
    ensures |ALPHABET| == 58
    ensures var ds := Repeat(0, Zeros(bytes)) + Repr(58, Num(256, bytes));
      Below(58, ds) && Encode(bytes) == Letters(ds)
  {
    assert ALPHABET[0] == '1';
    AlphabetAscends();
    hide ALPHABET, Num, Repr, Zeros;
    ReprIsProper(58, Num(256, bytes));
    LettersOfZeros(Zeros(bytes), Repr(58, Num(256, bytes)));
  }

  lemma LettersOfZeros(z: nat, proper: seq<nat>)
    requires |ALPHABET| == 58 && ALPHABET[0] == '1' && Below(58, proper)
    ensures Below(58, Repeat(0, z) + proper)
    ensures Letters(Repeat(0, z) + proper) == Repeat('1', z) + Letters(proper)
  {}

  lemma IndexesOfLetters(ds: seq<nat>)
    requires |ALPHABET| == 58 && Below(58, ds)
    ensures InAlphabet(Letters(ds)) && Indexes(Letters(ds)) == ds
    ensures forall i :: 0 <= i < |ds| ==> !IsSpace(Letters(ds)[i])
  {
    forall i | 0 <= i < |ds| ensures IndexOf(Letters(ds)[i]) == ds[i] && !IsSpace(Letters(ds)[i]) {
      IndexOfLetter(ds[i]);
    }
  }

  lemma SkipAll(s: string, n: nat, spaces: bool)
    requires n <= |s| && forall i :: n <= i < |s| ==> IsSpace(s[i]) == spaces
    ensures Skip(s, n, spaces) == |s|
  {}

  lemma SkipNone(s: string, spaces: bool)
    requires |s| > 0 ==> IsSpace(s[0]) != spaces
    ensures Skip(s, 0, spaces) == 0
  {}

  /** Decoding the encoding of any bytes gives them back. */
  lemma DecodeEncode(bytes: seq<byte>)
    ensures Decode(Encode(bytes)) == Some(bytes)
  {
    hide Search, IsSpace, Skip, ALPHABET, Num, Repr, Zeros, Encode, Letters;
    var s := Encode(bytes);
    EncodeIsLetters(bytes);
    IndexesOfLetters(Repeat(0, Zeros(bytes)) + Repr(58, Num(256, bytes)));
    SkipNone(s, true);
    SkipAll(s, 0, false);
    assert s[0..|s|] == s;
    ZerosThenProper(58, Zeros(bytes), Num(256, bytes));
    ZerosAndNumber(256, bytes);
  }

  lemma WordHasNoSpace(w: string)
    requires InAlphabet(w)
    ensures forall i :: 0 <= i < |w| ==> !IsSpace(w[i])
  {
    forall i | 0 <= i < |w| ensures !IsSpace(w[i]) {
      AlphabetAscends();
      IndexOfLetter(IndexOf(w[i]));
    }
  }

  /** A word over the alphabet is the one word that decoding finds. */
  lemma DecodesAsWord(w: string)
    requires InAlphabet(w)
    ensures Decode(w) == Some(DecodeWord(w))
  {
    WordHasNoSpace(w);
    hide Search, Skip, IsSpace, IndexOf, DecodeWord;
    SkipNone(w, true);
    SkipAll(w, 0, false);
    assert w[0..|w|] == w;
  }

  lemma LettersOfIndexes(w: string)
    requires InAlphabet(w)
    ensures |ALPHABET| == 58 && Below(58, Indexes(w)) && Letters(Indexes(w)) == w
  {
    AlphabetAscends();
    hide ALPHABET, Search;
  }

  /** Encoding what any word over the alphabet decodes to gives the word back. */
  lemma EncodeDecode(w: string)
    requires InAlphabet(w)
    ensures Decode(w) == Some(DecodeWord(w))
    ensures Below(256, DecodeWord(w)) && Encode(DecodeWord(w)) == w
  {
    DecodesAsWord(w);
    LettersOfIndexes(w);
    hide Decode, Indexes, IndexOf, InAlphabet, ALPHABET, Encode, Letters, Num, Repr, Zeros;
    var ds := Indexes(w);
    ZerosThenProper(256, Zeros(ds), Num(58, ds));
    ZerosAndNumber(58, ds);
    EncodeIsLetters(DecodeWord(w));
  }

  ///////////////////////////////////////////////////////////////////////////////////////////////
  // The buffers
  ///////////////////////////////////////////////////////////////////////////////////////////////

  lemma {:induction false} PowValue(b: nat, e: nat, half: nat, v: nat)
    requires Pow(b, half) == v && (e == 2 * half || e == 2 * half + 1)
    ensures Pow(b, e) == if e == 2 * half then v * v else v * v * b
  {
    PowAdd(b, half, half);
    assert e == 2 * half + 1 ==> Pow(b, e) == b * Pow(b, 2 * half);
  }

  lemma Powers()
    ensures Pow(256, 8) < Pow(58, 11) && Pow(58, 71) < Pow(256, 52)
  {
    PowValue(256, 2, 1, 256);
    PowValue(256, 4, 2, 65536);
    PowValue(256, 8, 4, 4294967296);
    PowValue(58, 2, 1, 58);
    PowValue(58, 5, 2, 3364);
    PowValue(58, 11, 5, 656356768);
    PowValue(58, 4, 2, 3364);
    PowValue(58, 8, 4, 11316496);
    PowValue(58, 17, 8, 128063081718016);
    PowValue(58, 35, 17, 951208868148684143308060622848);
    PowValue(58, 71, 35, 52478302028992644968172978478148648556151605660894866578604032);
    PowValue(256, 3, 1, 256);
    PowValue(256, 6, 3, 16777216);
    PowValue(256, 13, 6, 281474976710656);
    PowValue(256, 26, 13, 20282409603651670423947251286016);
    PowValue(256, 52, 26, 411376139330301510538742295639337626245683966408394965837152256);
  }

  /** n * 138 / 100 + 1 base-58 digits hold any n bytes. */
  lemma EncodeBufferFits(n: nat)
    ensures Pow(256, n) <= Pow(58, n * 138 / 100 + 1)
  {
    Powers();
    hide Pow;
    if n > 0 {
      ComparePowers(256, 8, 58, 11, n, n * 138 / 100 + 1);
    } else {
      PowMonoExp(58, 0, 1);
      PowZero(256);
      PowZero(58);
    }
  }

  /** n * 733 / 1000 + 1 bytes hold any n base-58 digits. */
  lemma {:induction false} DecodeBufferFits(n: nat)
    ensures Pow(58, n) <= Pow(256, n * 733 / 1000 + 1)
  {
    Powers();
    hide Pow;
    if n > 0 {
      ComparePowers(58, 71, 256, 52, n, n * 733 / 1000 + 1);
    } else {
      PowMonoExp(256, 0, 1);
      PowZero(256);
      PowZero(58);
    }
  }

  lemma PowZero(b: nat)
    ensures Pow(b, 0) == 1
  {}

  lemma {:induction false} NumAllZeros(b: nat, ds: seq<nat>)
    requires forall i :: 0 <= i < |ds| ==> ds[i] == 0
    ensures Num(b, ds) == 0
    decreases ds
  {
    if ds != [] {
      NumAllZeros(b, ds[..|ds| - 1]);
    }
  }

  /** Multiplies the number in a buffer by `m` and adds `c`, in place; returns the carry out of the buffer. */
  method MulAdd(a: array<nat>, b: nat, m: nat, c: nat) returns (carry: nat)
    requires b > 0 && Below(b, a[..])
    modifies a
    ensures Below(b, a[..])
    ensures Num(b, a[..]) + carry * Pow(b, a.Length) == Num(b, old(a[..])) * m + c
  {
    hide Num, Pow;
    carry := c;
    ghost var before := a[..];
    var i := a.Length;
    MulAddStart(b, before, a.Length);
    while i > 0
      invariant 0 <= i <= a.Length && Below(b, a[..])
      invariant a[..i] == before[..i]
      invariant Num(b, a[i..]) + carry * Pow(b, a.Length - i) == Num(b, before[i..]) * m + c
    {
      i := i - 1;
      ghost var carried, tail := carry, a[i + 1..];
      carry := carry + m * a[i];
      MulAddStep(b, m, before[i], before[i + 1..], tail, carried, carry / b, carry % b, c);
      a[i] := carry % b;
      carry := carry / b;
      assert a[i..] == [a[i]] + tail && before[i..] == [before[i]] + before[i + 1..];
    }
    assert a[0..] == a[..] && before[0..] == before;
  }

  lemma MulAddStart(b: nat, ds: seq<nat>, n: nat)
    requires n == |ds|
    ensures Num(b, ds[n..]) == 0 && Pow(b, 0) == 1
  {}

  /** One digit of MulAdd. */
  lemma {:induction false} MulAddStep(b: nat, m: nat, d: nat, before: seq<nat>, tail: seq<nat>, carry: nat, q: nat, r: nat, c: nat)
    requires |before| == |tail| && carry + m * d == q * b + r
    requires Num(b, tail) + carry * Pow(b, |tail|) == Num(b, before) * m + c
    ensures Num(b, [r] + tail) + q * Pow(b, |tail| + 1) == Num(b, [d] + before) * m + c
  {
    hide Num, Pow;
    var p := Pow(b, |tail|);
    NumCons(b, r, tail);
    NumCons(b, d, before);
    PowNext(b, |tail|);
    CarryArithmetic(b, m, d, p, Num(b, tail), Num(b, before), carry, q, r, c);
  }

  lemma PowNext(b: nat, e: nat)
    ensures Pow(b, e + 1) == b * Pow(b, e)
  {}

  lemma CarryArithmetic(b: nat, m: nat, d: nat, p: nat, x: nat, y: nat, carry: nat, q: nat, r: nat, c: nat)
    requires x + carry * p == y * m + c && carry + m * d == q * b + r
    ensures r * p + x + q * (b * p) == (d * p + y) * m + c
  {
    MulSwap(q, b, p);
    Distribute(q * b, r, p);
    Distribute(carry, m * d, p);
    MulSwap(m, d, p);
    Distribute(d * p, y, m);
    MulSwap(d * p, m, 1);
  }

  /** The carry is 0 as long as the number fits the buffer. */
  lemma NoCarry(v: nat, carry: nat, p: nat)
    requires v + carry * p < p
    ensures carry == 0
  {
    if carry > 0 {
      MulMono(1, carry, p, p);
    }
  }

  /** Num of a longer prefix, and its bound. */
  lemma NumPrefix(b: nat, ds: seq<nat>, n: nat)
    requires n < |ds| && b > 0 && Below(b, ds)
    ensures Num(b, ds[..n + 1]) == Num(b, ds[..n]) * b + ds[n]
    ensures Num(b, ds[..n + 1]) < Pow(b, |ds|)
  {
    assert ds[..n + 1][..n] == ds[..n];
    NumBound(b, ds[..n + 1]);
    PowMonoExp(b, n + 1, |ds|);
  }

  method EncodeBase58(bytes: seq<byte>) returns (str: string)
    ensures str == Encode(bytes)
  {
    AlphabetAscends();
    hide Num, Pow, Repr, ALPHABET;
    var zeroes := 0;
    while zeroes < |bytes| && bytes[zeroes] == 0
      invariant 0 <= zeroes <= |bytes| && forall i :: 0 <= i < zeroes ==> bytes[i] == 0
    {
      zeroes := zeroes + 1;
    }
    ghost var rest: seq<nat> := bytes[zeroes..];
    var b58 := new nat[(|bytes| - zeroes) * 138 / 100 + 1](_ => 0);
    NumAllZeros(58, b58[..]);
    NumEmpty(256, rest);
    EncodeBufferFits(|rest|);
    var p := 0;
    while p < |bytes| - zeroes
      invariant 0 <= p <= |rest| && Below(58, b58[..]) && Num(58, b58[..]) == Num(256, rest[..p])
    {
      NumPrefix(256, rest, p);
      var carry := MulAdd(b58, 58, 256, bytes[zeroes + p]);
      NoCarry(Num(58, b58[..]), carry, Pow(58, b58.Length));
      assert carry == 0;
      p := p + 1;
    }
    assert rest[..p] == rest;
    NumIgnoresZeros(256, bytes, zeroes);
    ZerosUnique(bytes, zeroes);
    var digits := StripZeros(b58, 58);
    str := Repeat('1', zeroes);
    var it := 0;
    while it < |digits|
      invariant 0 <= it <= |digits| && str == Repeat('1', zeroes) + Letters(digits[..it])
    {
      str := str + [ALPHABET[digits[it]]];
      it := it + 1;
    }
    assert digits[..it] == digits;
  }

  /** The digits of a buffer after its leading zeros. */
  method StripZeros(a: array<nat>, b: nat) returns (ds: seq<nat>)
    requires b >= 2 && Below(b, a[..])
    ensures ds == Repr(b, Num(b, a[..])) && Below(b, ds)
  {
    var it := 0;
    while it < a.Length && a[it] == 0
      invariant 0 <= it <= a.Length && forall i :: 0 <= i < it ==> a[i] == 0
    {
      it := it + 1;
    }
    StripIsRepr(b, a[..], it);
    ds := a[..][it..];
  }

  lemma NumEmpty(b: nat, ds: seq<nat>)
    ensures Num(b, ds[..0]) == 0
  {}

  lemma ZerosUnique(ds: seq<nat>, z: nat)
    requires z <= |ds| && (forall i :: 0 <= i < z ==> ds[i] == 0) && Proper(ds[z..])
    ensures Zeros(ds) == z
  {}

  lemma IndexesOfPart(s: string, n: nat, m: nat)
    requires n < m <= |s| && InAlphabet(s[n..m - 1]) && IndexOf(s[m - 1]) >= 0
    ensures InAlphabet(s[n..m]) && Indexes(s[n..m]) == Indexes(s[n..m - 1]) + [IndexOf(s[m - 1])]
  {
    assert s[n..m] == s[n..m - 1] + [s[m - 1]];
  }

  method SkipWhile(psz: string, n: nat, spaces: bool) returns (p: nat)
    requires n <= |psz|
    ensures p == Skip(psz, n, spaces)
  {
    hide Skip, IsSpace;
    p := n;
    while p < |psz| && IsSpace(psz[p]) == spaces
      invariant n <= p <= |psz| && Skip(psz, n, spaces) == Skip(psz, p, spaces)
    {
      p := p + 1;
    }
  }

  /** Counts the '1's at the start of the word. */
  method SkipOnes(psz: string, start: nat) returns (p: nat)
    requires start <= |psz|
    ensures start <= p <= |psz| && (forall i :: start <= i < p ==> psz[i] == '1') && (p < |psz| ==> psz[p] != '1')
    ensures Skip(psz, start, false) == Skip(psz, p, false)
  {
    FirstLetter();
    hide Skip, IsSpace;
    p := start;
    while p < |psz| && psz[p] == '1'
      invariant start <= p <= |psz| && Skip(psz, start, false) == Skip(psz, p, false)
      invariant forall i :: start <= i < p ==> psz[i] == '1'
    {
      p := p + 1;
    }
  }

  /** Reads the characters of a word into a byte buffer; fails at the first one outside the alphabet. */
  method ReadWord(psz: string, first: nat) returns (ok: bool, end: nat, b256: array<nat>)
    requires first <= |psz|
    ensures fresh(b256) && Below(256, b256[..])
    ensures ok <==> InAlphabet(psz[first..Skip(psz, first, false)])
    ensures ok ==> end == Skip(psz, first, false) && Num(256, b256[..]) == Num(58, Indexes(psz[first..end]))
  {
    AlphabetAscends();
    hide Num, Pow, ALPHABET, Skip, IsSpace, Search;
    b256 := new nat[(|psz| - first) * 733 / 1000 + 1](_ => 0);
    DecodeBufferFits(|psz| - first);
    NumAllZeros(256, b256[..]);
    NumAllZeros(58, []);
    end := first;
    assert psz[first..end] == [] && Indexes(psz[first..end]) == [];
    while end < |psz| && !IsSpace(psz[end])
      invariant first <= end <= |psz| && Skip(psz, first, false) == Skip(psz, end, false)
      invariant InAlphabet(psz[first..end]) && Below(256, b256[..])
      invariant Num(256, b256[..]) == Num(58, Indexes(psz[first..end]))
    {
      var digit := IndexOf(psz[end]);
      if digit == -1 {
        return false, end, b256;
      }
      NextDigit(psz, first, end);
      var carry := MulAdd(b256, 256, 58, digit);
      NoCarry(Num(256, b256[..]), carry, Pow(256, b256.Length));
      assert carry == 0;
      end := end + 1;
    }
    ok := true;
  }

  lemma {:induction false} NextDigit(s: string, first: nat, p: nat)
    requires first <= p < |s| && InAlphabet(s[first..p]) && IndexOf(s[p]) >= 0
    ensures InAlphabet(s[first..p + 1])
    ensures Num(58, Indexes(s[first..p + 1])) == Num(58, Indexes(s[first..p])) * 58 + IndexOf(s[p])
    ensures Num(58, Indexes(s[first..p + 1])) < Pow(58, |s| - first)
  {
    hide Num, Pow, Search, ALPHABET;
    IndexesOfPart(s, first, p + 1);
    AlphabetAscends();
    var ds := Indexes(s[first..p + 1]);
    NumPrefix(58, ds, p - first);
    assert ds[..p - first] == Indexes(s[first..p]) && ds[..p - first + 1] == ds;
    PowMonoExp(58, |ds|, |s| - first);
  }

  /** `psz` is a C string: everything up to, and without, the terminating NUL. */
  method DecodeBase58(psz: string) returns (ok: bool, vch: seq<nat>)
    ensures ok <==> Decode(psz).Some?
    ensures ok ==> vch == Decode(psz).value
  {
    hide Num, Pow, Repr, ALPHABET, Skip, IsSpace, Search, Zeros, DecodeWord;
    vch := [];
    var start := SkipWhile(psz, 0, true);
    var first := SkipOnes(psz, start);
    OnesAreZeros(psz, start, first);
    var good, end, b256 := ReadWord(psz, first);
    WordInAlphabet(psz, start, first, Skip(psz, first, false));
    if !good {
      return false, [];
    }
    var p := SkipWhile(psz, end, true);
    if p < |psz| {
      return false, [];
    }
    WordDecodes(psz, start, first, end);
    var bytes := StripZeros(b256, 256);
    return true, Repeat(0, first - start) + bytes;
  }

  lemma FirstLetter()
    ensures IndexOf('1') == 0 && !IsSpace('1')
  {
    assert ALPHABET[0] == '1';
    IndexOfLetter(0);
  }

  lemma OnesAreZeros(s: string, start: nat, first: nat)
    requires start <= first <= |s| && forall i :: start <= i < first ==> s[i] == '1'
    ensures InAlphabet(s[start..first]) && Indexes(s[start..first]) == Repeat(0, first - start)
  {
    FirstLetter();
    hide Search;
  }

  lemma WordInAlphabet(s: string, start: nat, first: nat, end: nat)
    requires start <= first <= end <= |s| && InAlphabet(s[start..first])
    ensures InAlphabet(s[start..end]) <==> InAlphabet(s[first..end])
    ensures InAlphabet(s[first..end]) ==> Indexes(s[start..end]) == Indexes(s[start..first]) + Indexes(s[first..end])
  {
    hide Search;
    var a, b := s[start..first], s[first..end];
    assert s[start..end] == a + b;
    if InAlphabet(a + b) {
      forall i | 0 <= i < |b| ensures IndexOf(b[i]) >= 0 {
        assert (a + b)[|a| + i] == b[i];
      }
    }
  }

  lemma OnlyOneIsZero(c: char)
    ensures IndexOf(c) == 0 ==> c == '1'
  {
    assert ALPHABET[0] == '1';
  }

  /** A word after its leading '1's. */
  lemma WordDecodes(s: string, start: nat, first: nat, end: nat)
    requires start <= first <= end <= |s| && InAlphabet(s[start..first]) && InAlphabet(s[first..end])
    requires Indexes(s[start..first]) == Repeat(0, first - start) && (first < end ==> s[first] != '1')
    ensures InAlphabet(s[start..end])
    ensures DecodeWord(s[start..end]) == Repeat(0, first - start) + Repr(256, Num(58, Indexes(s[first..end])))
  {
    hide Num, Repr, Search, ALPHABET;
    WordInAlphabet(s, start, first, end);
    var ds, rest := Indexes(s[start..end]), Indexes(s[first..end]);
    assert ds[first - start..] == rest;
    if first < end {
      OnlyOneIsZero(s[first]);
    }
    ZerosUnique(ds, first - start);
    NumIgnoresZeros(58, ds, first - start);
  }

  ///////////////////////////////////////////////////////////////////////////////////////////////
  // With a checksum
  ///////////////////////////////////////////////////////////////////////////////////////////////

  /** The first four bytes of the double hash, which is left uninterpreted. */
  datatype Hasher = Hasher(first4: seq<nat> -> seq<byte>)

  /** Appends four bytes of the hash before encoding. */
  method EncodeBase58Check(h: Hasher, vchIn: seq<byte>) returns (str: string)
    ensures str == Encode(vchIn + h.first4(vchIn))
  {
    str := EncodeBase58(vchIn + h.first4(vchIn));
  }

  /** Accepts exactly the strings that decode to some bytes followed by the first four bytes of their hash. */
  method DecodeBase58Check(h: Hasher, psz: string) returns (ok: bool, vch: seq<nat>)
    requires forall v: seq<nat> :: |h.first4(v)| == 4
    ensures ok ==> Decode(psz) == Some(vch + h.first4(vch))
    ensures !ok ==> vch == [] && forall v: seq<nat> :: Decode(psz) != Some(v + h.first4(v))
  {
    ok, vch := DecodeBase58(psz);
    if !ok || |vch| < 4 {
      return false, [];
    }
    var all := vch;
    var body, check := all[..|all| - 4], all[|all| - 4..];
    assert all == body + check;
    if h.first4(body) != check {
      forall v: seq<nat> ensures all != v + h.first4(v) {
        assert (v + h.first4(v))[..|v + h.first4(v)| - 4] == v;
      }
      return false, [];
    }
    vch := body;
  }

  /** What EncodeBase58Check produces, DecodeBase58Check accepts, and only as the bytes encoded. */
  lemma CheckRoundTrip(h: Hasher, v: seq<byte>, w: seq<nat>)
    requires |h.first4(v)| == 4 && |h.first4(w)| == 4
    ensures Decode(Encode(v + h.first4(v))) == Some(v + h.first4(v))
    ensures Decode(Encode(v + h.first4(v))) == Some(w + h.first4(w)) ==> w == v
  {
    DecodeEncode(v + h.first4(v));
    var a, b: seq<nat> := v + h.first4(v), w + h.first4(w);
    assert a[..|a| - 4] == v && b[..|b| - 4] == w;
  }
}
