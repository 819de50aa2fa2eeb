/**
 Mnemonic phrases (bip39.cpp): the entropy and a checksum, cut into 11-bit word indexes.  The word
 list and the first byte of the SHA-256 digest are parameters.
 */
module Bip39 {
  import opened Digits
  import opened Bits

  type Digest = seq<bv8> -> bv8

  /** What the code relies on in its word list. */
  ghost predicate GoodList(wordlist: seq<string>) {
    && |wordlist| == 2048
    && (forall i :: 0 <= i < 2048 ==> wordlist[i] != "" && |wordlist[i]| <= 9 && ' ' !in wordlist[i])
    && (forall i, j :: 0 <= i < j < 2048 ==> wordlist[i] != wordlist[j])
  }

  ///////////////////////////////////////////////////////////////////////////////////////////////
  // Phrases and words
  ///////////////////////////////////////////////////////////////////////////////////////////////

  function Join(words: seq<string>): string {
    if words == [] then "" else if |words| == 1 then words[0] else words[0] + " " + Join(words[1..])
  }

  /** Everything before the first space. */
  function FirstWord(m: string): (w: string)
    ensures |w| <= |m| && m[..|w|] == w && ' ' !in w && (|w| < |m| ==> m[|w|] == ' ')
  {
    if m == "" || m[0] == ' ' then "" else [m[0]] + FirstWord(m[1..])
  }

  function Split(m: string): (words: seq<string>)
    ensures |words| > 0
    decreases m
  {
    var w := FirstWord(m);
    if |w| == |m| then [w] else [w] + Split(m[|w| + 1..])
  }

  function Spaces(m: string): nat {
    if m == "" then 0 else (if m[0] == ' ' then 1 else 0) + Spaces(m[1..])
  }

  lemma {:induction false} JoinAppend(words: seq<string>, w: string)
    ensures Join(words + [w]) == if words == [] then w else Join(words) + " " + w
    decreases words
  {
    if |words| > 1 {
      JoinAppend(words[1..], w);
      assert (words + [w])[1..] == words[1..] + [w];
      assert words[0] + " " + (Join(words[1..]) + " " + w) == words[0] + " " + Join(words[1..]) + " " + w;
    } else if |words| == 1 {
      assert (words + [w])[1..] == [w];
    }
  }

  lemma {:induction false} FirstWordOf(w: string, rest: string)
    requires ' ' !in w && (rest == "" || rest[0] == ' ')
    ensures FirstWord(w + rest) == w
    decreases w
  {
    if w != "" {
      assert (w + rest)[0] == w[0] && w[0] in w && (w + rest)[1..] == w[1..] + rest;
      FirstWordOf(w[1..], rest);
    } else {
      assert w + rest == rest;
    }
  }

  lemma SplitFirst(w: string, rest: string)
    requires ' ' !in w
    ensures Split(w) == [w] && Split(w + " " + rest) == [w] + Split(rest)
  {
    FirstWordOf(w, "");
    assert w + "" == w;
    FirstWordOf(w, " " + rest);
    assert w + " " + rest == w + (" " + rest);
    assert (w + (" " + rest))[|w| + 1..] == rest;
  }

  /** Words without spaces can be told apart in the phrase. */
  lemma {:induction false} SplitJoin(words: seq<string>)
    requires words != [] && forall i :: 0 <= i < |words| ==> ' ' !in words[i]
    ensures Split(Join(words)) == words
    decreases words
  {
    hide Split;
    SplitFirst(words[0], Join(words[1..]));
    if |words| > 1 {
      SplitJoin(words[1..]);
    }
  }

  lemma {:induction false} JoinSplit(m: string)
    ensures Join(Split(m)) == m
    decreases m
  {
    hide FirstWord;
    var w := FirstWord(m);
    if |w| < |m| {
      JoinSplit(m[|w| + 1..]);
      assert m == w + " " + m[|w| + 1..];
    }
  }

  lemma {:induction false} SpacesCount(m: string)
    ensures |Split(m)| == Spaces(m) + 1
    decreases m
  {
    var w := FirstWord(m);
    SpacesAfter(m, |w|);
    if |w| < |m| {
      SpacesCount(m[|w| + 1..]);
      assert m[|w|..][1..] == m[|w| + 1..];
    }
  }

  lemma {:induction false} SpacesAfter(m: string, k: nat)
    requires k <= |m| && forall i :: 0 <= i < k ==> m[i] != ' '
    ensures Spaces(m) == Spaces(m[k..])
    decreases k
  {
    if k > 0 {
      SpacesAfter(m[1..], k - 1);
      assert m[1..][k - 1..] == m[k..];
    } else {
      assert m[0..] == m;
    }
  }

  ///////////////////////////////////////////////////////////////////////////////////////////////
  // Indexes and bits
  ///////////////////////////////////////////////////////////////////////////////////////////////

  /** The i-th group of eleven bits, as an index into the word list. */
  function Index(bits: seq<bool>, i: nat): (r: nat)
    requires 11 * i + 11 <= |bits|
    ensures r < 2048
  {
    ValueBound(bits[11 * i..11 * i + 11]);
    assert Pow(2, 11) == 2048;
    Value(bits[11 * i..11 * i + 11])
  }

  function WordsFor(bits: seq<bool>, n: nat, wordlist: seq<string>): seq<string>
    requires 11 * n <= |bits| && |wordlist| == 2048
  {
    if n == 0 then [] else WordsFor(bits, n - 1, wordlist) + [wordlist[Index(bits, n - 1)]]
  }

  function IndexOf(wordlist: seq<string>, w: string): (i: nat)
    requires w in wordlist
    ensures i < |wordlist| && wordlist[i] == w
  {
    if wordlist[0] == w then 0 else 1 + IndexOf(wordlist[1..], w)
  }

  predicate AllKnown(words: seq<string>, wordlist: seq<string>) {
    forall i :: 0 <= i < |words| ==> words[i] in wordlist
  }

  /** The indexes of the words, eleven bits each. */
  function BitsFor(words: seq<string>, wordlist: seq<string>): (bits: seq<bool>)
    requires AllKnown(words, wordlist)
    ensures |bits| == 11 * |words|
  {
    if words == [] then []
    else BitsFor(words[..|words| - 1], wordlist) + BitsOf(IndexOf(wordlist, words[|words| - 1]), 11)
  }

  lemma {:induction false} WordsAreGood(bits: seq<bool>, n: nat, wordlist: seq<string>)
    requires GoodList(wordlist) && 11 * n <= |bits|
    ensures var words := WordsFor(bits, n, wordlist);
      |words| == n && forall i :: 0 <= i < n ==> words[i] in wordlist && words[i] != "" && ' ' !in words[i]
    decreases n
  {
    if n > 0 {
      WordsAreGood(bits, n - 1, wordlist);
    }
  }

  lemma WordBits(bits: seq<bool>, n: nat, wordlist: seq<string>)
    requires GoodList(wordlist) && 11 * n + 11 <= |bits|
    ensures wordlist[Index(bits, n)] in wordlist
    ensures BitsOf(IndexOf(wordlist, wordlist[Index(bits, n)]), 11) == bits[11 * n..11 * n + 11]
  {
    BitsOfValue(bits[11 * n..11 * n + 11]);
  }

  lemma BitsForAppend(words: seq<string>, w: string, wordlist: seq<string>)
    requires AllKnown(words, wordlist) && w in wordlist
    ensures AllKnown(words + [w], wordlist)
    ensures BitsFor(words + [w], wordlist) == BitsFor(words, wordlist) + BitsOf(IndexOf(wordlist, w), 11)
  {
    assert (words + [w])[..|words|] == words;
  }

  lemma GoodSize(wordlist: seq<string>)
    requires GoodList(wordlist)
    ensures |wordlist| == 2048
  {}

  lemma Glue(bits: seq<bool>, a: nat, b: nat)
    requires a <= b <= |bits|
    ensures bits[..a] + bits[a..b] == bits[..b]
  {}

  /** Words to bits undoes bits to words. */
  lemma {:induction false} BitsForWords(bits: seq<bool>, n: nat, wordlist: seq<string>)
    requires GoodList(wordlist) && 11 * n <= |bits|
    ensures |wordlist| == 2048 && AllKnown(WordsFor(bits, n, wordlist), wordlist)
    ensures BitsFor(WordsFor(bits, n, wordlist), wordlist) == bits[..11 * n]
    decreases n
  {
    hide *;
    GoodSize(wordlist);
    if n == 0 {
      NoWords(bits, wordlist);
    } else {
      BitsForWords(bits, n - 1, wordlist);
      WordBits(bits, n - 1, wordlist);
      LastWordFor(bits, n, wordlist);
      BitsForAppend(WordsFor(bits, n - 1, wordlist), wordlist[Index(bits, n - 1)], wordlist);
      Glue(bits, 11 * n - 11, 11 * n);
    }
  }

  lemma IndexRead(bits: seq<bool>, n: nat, i: nat)
    requires 11 * n + 11 <= |bits| && i < 2048 && bits[11 * n..11 * n + 11] == BitsOf(i, 11)
    ensures Index(bits, n) == i
  {
    assert Pow(2, 11) == 2048;
    ValueOfBits(i, 11);
  }

  /** And the other way round. */
  lemma BitsForLast(words: seq<string>, wordlist: seq<string>)
    requires GoodList(wordlist) && AllKnown(words, wordlist) && words != []
    ensures var (front, w) := (words[..|words| - 1], words[|words| - 1]);
      && AllKnown(front, wordlist) && w in wordlist
      && BitsFor(words, wordlist) == BitsFor(front, wordlist) + BitsOf(IndexOf(wordlist, w), 11)
      && |wordlist| == 2048 && IndexOf(wordlist, w) < 2048 && wordlist[IndexOf(wordlist, w)] == w
  {
    hide BitsOf;
  }

  lemma LastWordFor(bits: seq<bool>, n: nat, wordlist: seq<string>)
    requires 0 < n && 11 * n <= |bits| && |wordlist| == 2048
    ensures WordsFor(bits, n, wordlist) == WordsFor(bits, n - 1, wordlist) + [wordlist[Index(bits, n - 1)]]
  {}

  lemma PrefixSplit(a: seq<bool>, b: seq<bool>, bits: seq<bool>)
    requires a + b <= bits
    ensures a <= bits && |a| + |b| <= |bits| && bits[|a|..|a| + |b|] == b
  {
    assert (a + b)[|a|..] == b;
  }

  lemma NoWords(bits: seq<bool>, wordlist: seq<string>)
    requires |wordlist| == 2048
    ensures WordsFor(bits, 0, wordlist) == [] && AllKnown([], wordlist) && BitsFor([], wordlist) == []
  {}

  lemma {:induction false} WordsForBits(words: seq<string>, wordlist: seq<string>, bits: seq<bool>)
    requires GoodList(wordlist) && AllKnown(words, wordlist) && BitsFor(words, wordlist) <= bits
    ensures WordsFor(bits, |words|, wordlist) == words
    decreases |words|
  {
    hide *;
    GoodSize(wordlist);
    var n := |words|;
    if n == 0 {
      NoWords(bits, wordlist);
    } else {
      var front, w := words[..n - 1], words[n - 1];
      BitsForLast(words, wordlist);
      var i := IndexOf(wordlist, w);
      PrefixSplit(BitsFor(front, wordlist), BitsOf(i, 11), bits);
      WordsForBits(front, wordlist, bits);
      IndexRead(bits, n - 1, i);
      LastWordFor(bits, n, wordlist);
      assert words == front + [w];
    }
  }

  ///////////////////////////////////////////////////////////////////////////////////////////////
  // What the two functions compute
  ///////////////////////////////////////////////////////////////////////////////////////////////

  /** The entropy followed by the first byte of its digest. */
  function WithChecksum(data: seq<bv8>, digest: Digest): (bits: seq<bool>)
    ensures |bits| == 8 * |data| + 8
  {
    Unpack(data) + ByteBits(digest(data))
  }

  /** The phrase of 4 k bytes has 3 k words. */
  function PhraseOf(data: seq<bv8>, k: nat, wordlist: seq<string>, digest: Digest): string
    requires |data| == 4 * k && k <= 8 && |wordlist| == 2048
  {
    Join(WordsFor(WithChecksum(data, digest), 3 * k, wordlist))
  }

  lemma Eights(n: nat)
    ensures 8 * n % 8 == 0
  {}

  /** The entropy that 3 k words carry. */
  function EntropyOf(words: seq<string>, k: nat, wordlist: seq<string>): (data: seq<bv8>)
    requires |words| == 3 * k && AllKnown(words, wordlist)
    ensures |data| == 4 * k
  {
    Eights(4 * k);
    Pack(BitsFor(words, wordlist)[..8 * (4 * k)])
  }

  /** The words are known and the bits after the entropy are the first bits of its digest. */
  ghost predicate Checked(words: seq<string>, k: nat, wordlist: seq<string>, digest: Digest)
    requires |words| == 3 * k && k <= 8
  {
    && AllKnown(words, wordlist)
    && BitsFor(words, wordlist)[32 * k..] == ByteBits(digest(EntropyOf(words, k, wordlist)))[..k]
  }

  ghost predicate Accepted(m: string, wordlist: seq<string>, digest: Digest) {
    var words := Split(m);
    && m != ""
    && (|words| == 12 || |words| == 18 || |words| == 24)
    && exists k :: 4 <= k <= 8 && |words| == 3 * k && Checked(words, k, wordlist, digest)
  }

  lemma {:induction false} PackUnpack(data: seq<bv8>)
    ensures Pack(Unpack(data)) == data
  {
    hide Unpack, Pack, Has;
    var bits := Unpack(data);
    forall j, k | 0 <= j < |data| && 0 <= k < 8 ensures bits[8 * j + k] == Has(data[j], k) {
      UnpackAt(data, 8 * j + k);
      assert (8 * j + k) / 8 == j && (8 * j + k) % 8 == k;
    }
    PackedBytes(data, bits);
  }

  lemma PrefixesOf(a: seq<bool>, b: seq<bool>, n: nat, k: nat)
    requires |a| == n && k <= |b|
    ensures (a + b)[..n + k][..n] == a && (a + b)[..n + k][n..] == b[..k]
  {}

  /** The words made from 4 k bytes carry those bytes and a right checksum. */
  lemma {:induction false} WordsChecked(data: seq<bv8>, k: nat, wordlist: seq<string>, digest: Digest)
    requires GoodList(wordlist) && |data| == 4 * k && k <= 8
    ensures var words := WordsFor(WithChecksum(data, digest), 3 * k, wordlist);
      |words| == 3 * k && Checked(words, k, wordlist, digest) && EntropyOf(words, k, wordlist) == data
  {
    hide Unpack, Pack, ByteBits, Has, GoodList, WordsFor, BitsFor, Index;
    var bits := WithChecksum(data, digest);
    WordsAreGood(bits, 3 * k, wordlist);
    BitsForWords(bits, 3 * k, wordlist);
    PrefixesOf(Unpack(data), ByteBits(digest(data)), 32 * k, k);
    assert bits[..11 * (3 * k)] == bits[..32 * k + k];
    PackUnpack(data);
  }

  /** Checked words are the words of the entropy they carry. */
  lemma CheckedWords(words: seq<string>, k: nat, wordlist: seq<string>, digest: Digest)
    requires GoodList(wordlist) && |words| == 3 * k && k <= 8 && Checked(words, k, wordlist, digest)
    ensures WordsFor(WithChecksum(EntropyOf(words, k, wordlist), digest), 3 * k, wordlist) == words
  {
    hide Unpack, Pack, ByteBits, Has, GoodList, WordsFor, BitsFor, Index;
    var bits := BitsFor(words, wordlist);
    var data := EntropyOf(words, k, wordlist);
    UnpackPack(bits[..32 * k]);
    WordsForBits(words, wordlist, WithChecksum(data, digest));
  }

  /** Check accepts a phrase made from 16, 24 or 32 bytes, but not one made from 20 or 28 bytes. */
  lemma PhraseAccepted(data: seq<bv8>, k: nat, wordlist: seq<string>, digest: Digest)
    requires GoodList(wordlist) && |data| == 4 * k && 4 <= k <= 8
    ensures Accepted(PhraseOf(data, k, wordlist, digest), wordlist, digest) <==> k == 4 || k == 6 || k == 8
  {
    hide Unpack, Pack, ByteBits, GoodList, WordsFor, BitsFor, Index, Join, Split, Checked, WithChecksum;
    GoodSize(wordlist);
    WordsAreGood(WithChecksum(data, digest), 3 * k, wordlist);
    WordsChecked(data, k, wordlist, digest);
    var words := WordsFor(WithChecksum(data, digest), 3 * k, wordlist);
    SplitJoin(words);
    JoinNonempty(words);
  }

  lemma JoinNonempty(words: seq<string>)
    requires words != [] && words[0] != ""
    ensures Join(words) != ""
  {}

  /** Every phrase that Check accepts is the phrase of the entropy its words encode. */
  lemma AcceptedIsPhrase(m: string, wordlist: seq<string>, digest: Digest)
    requires GoodList(wordlist) && Accepted(m, wordlist, digest)
    ensures AllKnown(Split(m), wordlist)
    ensures exists k :: (
      4 <= k <= 8 && |Split(m)| == 3 * k && m == PhraseOf(EntropyOf(Split(m), k, wordlist), k, wordlist, digest))
  {
    var words := Split(m);
    var k :| 4 <= k <= 8 && |words| == 3 * k && Checked(words, k, wordlist, digest);
    assert AllKnown(words, wordlist);
    hide Unpack, Pack, ByteBits, GoodList, WordsFor, BitsFor, Index, Join, Split, Checked, WithChecksum, AllKnown;
    CheckedWords(words, k, wordlist, digest);
    JoinSplit(m);
    assert m == PhraseOf(EntropyOf(words, k, wordlist), k, wordlist, digest);
  }

  ///////////////////////////////////////////////////////////////////////////////////////////////
  // The code
  ///////////////////////////////////////////////////////////////////////////////////////////////

  /** Bit i of a buffer. */
  predicate BitIn(buffer: seq<bv8>, i: nat)
    requires i < 8 * |buffer|
  {
    Has(buffer[i / 8], i % 8)
  }

  lemma ChecksummedBit(data: seq<bv8>, digest: Digest, i: nat)
    requires i < 8 * |data| + 8
    ensures WithChecksum(data, digest)[i] == BitIn(data + [digest(data)], i)
  {
    if i < 8 * |data| {
      UnpackAt(data, i);
    } else {
      assert i / 8 == |data| && i % 8 == i - 8 * |data|;
    }
  }

  /** Eleven bits of the buffer, shifted in one by one. */
  method ReadIndex(bits: seq<bv8>, i: nat, ghost all: seq<bool>) returns (idx: nat)
    requires |all| == 8 * |bits| && 11 * i + 11 <= |all|
    requires forall k :: 0 <= k < |all| ==> all[k] == BitIn(bits, k)
    ensures idx == Index(all, i)
  {
    hide Has;
    idx := 0;
    var j: nat := 0;
    while j < 11
      invariant j <= 11 && idx == Value(all[i * 11..i * 11 + j])
    {
      assert all[i * 11..i * 11 + j + 1][..j] == all[i * 11..i * 11 + j];
      assert all[i * 11 + j] == BitIn(bits, i * 11 + j);
      idx := idx * 2;
      idx := idx + if Has(bits[(i * 11 + j) / 8], (i * 11 + j) % 8) then 1 else 0;
      j := j + 1;
    }
  }

  lemma ChecksummedBits(data: seq<bv8>, digest: Digest)
    ensures var all := WithChecksum(data, digest);
      forall i :: 0 <= i < |all| ==> all[i] == BitIn(data + [digest(data)], i)
  {
    hide BitIn, WithChecksum;
    var all := WithChecksum(data, digest);
    forall i | 0 <= i < |all| ensures all[i] == BitIn(data + [digest(data)], i) {
      ChecksummedBit(data, digest, i);
    }
  }

  method AppendWords(bits: seq<bv8>, mlen: nat, wordlist: seq<string>, ghost all: seq<bool>) returns (mnemonic: string)
    requires |wordlist| == 2048 && |all| == 8 * |bits| && 11 * mlen <= |all|
    requires forall k :: 0 <= k < |all| ==> all[k] == BitIn(bits, k)
    ensures mnemonic == Join(WordsFor(all, mlen, wordlist))
  {
    hide BitIn, Index, Join;
    mnemonic := "";
    JoinNothing();
    for i := 0 to mlen
      invariant mnemonic == Join(WordsFor(all, i, wordlist)) + if 0 < i < mlen then " " else ""
    {
      var idx := ReadIndex(bits, i, all);
      JoinAppend(WordsFor(all, i, wordlist), wordlist[idx]);
      mnemonic := mnemonic + wordlist[idx];
      if i < mlen - 1 {
        mnemonic := mnemonic + " ";
      }
    }
  }

  /** Empty for an unsupported length, otherwise the phrase of the first len bytes. */
  method FromData(data: seq<bv8>, len: int, wordlist: seq<string>, digest: Digest) returns (mnemonic: string)
    requires GoodList(wordlist) && (len % 4 == 0 && 16 <= len <= 32 ==> len <= |data|)
    ensures len % 4 != 0 || len < 16 || len > 32 ==> mnemonic == ""
    ensures forall k :: 4 <= k <= 8 && len == 4 * k ==> mnemonic == PhraseOf(data[..len], k, wordlist, digest)
  {
    hide WithChecksum, Join, WordsFor;
    GoodSize(wordlist);
    hide GoodList;
    if len % 4 != 0 || len < 16 || len > 32 {
      return "";
    }
    ghost var k := len / 4;
    var checksum := digest(data[..len]);
    var bits := data[..len] + [checksum];
    var mlen := len * 3 / 4;
    assert len == 4 * k && mlen == 3 * k;
    ChecksummedBits(data[..len], digest);
    mnemonic := AppendWords(bits, mlen, wordlist, WithChecksum(data[..len], digest));
  }

  lemma JoinNothing()
    ensures Join([]) == ""
  {}

  method CountWords(mnemonic: string) returns (nWordCount: nat)
    ensures nWordCount == |Split(mnemonic)|
  {
    SpacesCount(mnemonic);
    hide Split;
    nWordCount := 0;
    assert mnemonic[0..] == mnemonic;
    for i := 0 to |mnemonic|
      invariant nWordCount + Spaces(mnemonic[i..]) == Spaces(mnemonic)
    {
      assert mnemonic[i..][1..] == mnemonic[i + 1..];
      if mnemonic[i] == ' ' {
        nWordCount := nWordCount + 1;
      }
    }
    nWordCount := nWordCount + 1;
  }

  /** Collects the characters up to the next space, and gives up after nine of them. */
  method ReadWord(mnemonic: string, i: nat) returns (ok: bool, word: string)
    requires i <= |mnemonic|
    ensures ok <==> |FirstWord(mnemonic[i..])| <= 9
    ensures ok ==> word == FirstWord(mnemonic[i..])
  {
    hide FirstWord;
    ghost var rest := mnemonic[i..];
    word := "";
    while i + |word| < |mnemonic| && mnemonic[i + |word|] != ' '
      invariant |word| <= 9 && |word| <= |FirstWord(rest)| && word == FirstWord(rest)[..|word|]
      decreases |mnemonic| - |word|
    {
      assert rest[|word|] == mnemonic[i + |word|];
      if |word| >= 9 {
        return false, "";
      }
      word := word + [mnemonic[i + |word|]];
    }
    ok := true;
  }

  /** The linear search through the list. */
  method Lookup(word: string, wordlist: seq<string>) returns (nWordIndex: nat)
    ensures if word in wordlist then nWordIndex == IndexOf(wordlist, word) else nWordIndex == |wordlist|
  {
    nWordIndex := 0;
    assert wordlist[0..] == wordlist;
    while nWordIndex < |wordlist| && wordlist[nWordIndex] != word
      invariant nWordIndex <= |wordlist| && word !in wordlist[..nWordIndex]
      invariant word in wordlist[nWordIndex..] <==> word in wordlist
      invariant word in wordlist ==> IndexOf(wordlist, word) == nWordIndex + IndexOf(wordlist[nWordIndex..], word)
    {
      var tail := wordlist[nWordIndex..];
      assert tail[1..] == wordlist[nWordIndex + 1..] && tail == [tail[0]] + tail[1..];
      nWordIndex := nWordIndex + 1;
    }
    if nWordIndex < |wordlist| {
      assert wordlist[nWordIndex..][0] == word;
    }
  }

  /** The buffer holds the collected bits and zeros after them. */
  ghost predicate Held(buffer: seq<bv8>, bits: seq<bool>) {
    && |buffer| == 33 && |bits| <= 264
    && forall i :: 0 <= i < 264 ==> BitIn(buffer, i) == (i < |bits| && bits[i])
  }

  lemma SetBitIn(buffer: seq<bv8>, n: nat, i: nat)
    requires n < 8 * |buffer| && i < 8 * |buffer|
    ensures var after := buffer[n / 8 := buffer[n / 8] | Weight(n % 8)];
      |after| == |buffer| && BitIn(after, i) == (i == n || BitIn(buffer, i))
  {
    hide Has, Weight;
    SetBit(buffer[n / 8], n % 8, i % 8);
  }

  lemma OneMoreHeld(buffer: seq<bv8>, bits: seq<bool>, bit: bool)
    requires Held(buffer, bits) && |bits| < 264
    ensures |buffer| == 33
    ensures var n := |bits|;
      Held(if bit then buffer[n / 8 := buffer[n / 8] | Weight(n % 8)] else buffer, bits + [bit])
  {
    hide BitIn, Weight;
    var n := |bits|;
    if bit {
      var after := buffer[n / 8 := buffer[n / 8] | Weight(n % 8)];
      forall i | 0 <= i < 264 ensures BitIn(after, i) == (i == n || BitIn(buffer, i)) {
        SetBitIn(buffer, n, i);
      }
    }
  }

  /** Appends the eleven bits of an index to the buffer, which always has room for them. */
  method StoreIndex(bits: array<bv8>, nBitsCount: nat, nWordIndex: nat, ghost collected: seq<bool>)
    requires Held(bits[..], collected) && |collected| == nBitsCount && nBitsCount + 11 <= 264
    modifies bits
    ensures Held(bits[..], collected + BitsOf(nWordIndex, 11))
  {
    hide Held, BitsOf;
    ghost var word := BitsOf(nWordIndex, 11);
    ghost var so := collected;
    assert collected + word[..0] == collected;
    var ki: nat := 0;
    while ki < 11
      invariant ki <= 11 && so == collected + word[..ki] && Held(bits[..], so)
    {
      BitAt(nWordIndex, 11, ki);
      OneMoreHeld(bits[..], so, word[ki]);
      var n := nBitsCount + ki;
      if nWordIndex / Pow(2, 10 - ki) % 2 == 1 {
        bits[n / 8] := bits[n / 8] | Weight(n % 8);
      }
      so := so + [word[ki]];
      ki := ki + 1;
    }
    assert word[..11] == word;
  }

  /** The words from position i on, if a word starts there. */
  ghost function Tail(m: string, i: nat): seq<string> {
    if i <= |m| then Split(m[i..]) else []
  }

  lemma TailStep(m: string, i: nat)
    requires i <= |m|
    ensures var w := FirstWord(m[i..]); Tail(m, i) == [w] + Tail(m, i + |w| + 1)
  {
    var w := FirstWord(m[i..]);
    if i + |w| < |m| {
      assert m[i..][|w| + 1..] == m[i + |w| + 1..];
    }
  }

  lemma UnknownRejected(m: string, before: seq<string>, w: string, rest: seq<string>, wordlist: seq<string>, digest: Digest)
    requires Split(m) == before + ([w] + rest) && w !in wordlist
    ensures !Accepted(m, wordlist, digest)
  {
    assert Split(m)[|before|] == w;
  }

  lemma ListedWords(wordlist: seq<string>, w: string)
    requires GoodList(wordlist) && w in wordlist
    ensures w != "" && |w| <= 9
  {}

  /** What the buffer holds once all words are in: the entropy and, in the next byte, the checksum. */
  lemma BufferRead(buffer: seq<bv8>, words: seq<string>, k: nat, wordlist: seq<string>)
    requires AllKnown(words, wordlist) && |words| == 3 * k && 4 <= k <= 8 && Held(buffer, BitsFor(words, wordlist))
    ensures |buffer| == 33 && buffer[..4 * k] == EntropyOf(words, k, wordlist)
    ensures forall j :: 0 <= j < k ==> Has(buffer[4 * k], j) == BitsFor(words, wordlist)[32 * k + j]
  {
    hide Has, BitsFor, AllKnown;
    var bits := BitsFor(words, wordlist);
    PackedBytes(buffer[..4 * k], bits[..32 * k]);
  }

  /** Comparing under a mask of leading ones compares the leading bits. */
  lemma MaskedEqual(a: bv8, b: bv8)
    ensures a & 0xF0 == b & 0xF0 <==> forall j :: 0 <= j < 4 ==> Has(a, j) == Has(b, j)
    ensures a & 0xFC == b & 0xFC <==> forall j :: 0 <= j < 6 ==> Has(a, j) == Has(b, j)
    ensures a == b <==> forall j :: 0 <= j < 8 ==> Has(a, j) == Has(b, j)
  {
    if forall j :: 0 <= j < 8 ==> Has(a, j) == Has(b, j) {
      SameBits(a, b);
    }
    assert Has(a, 0) == Has(b, 0) && Has(a, 1) == Has(b, 1) && Has(a, 2) == Has(b, 2) && Has(a, 3) == Has(b, 3)
           <==> a & 0xF0 == b & 0xF0;
    assert Has(a, 4) == Has(b, 4) && Has(a, 5) == Has(b, 5) && a & 0xF0 == b & 0xF0 <==> a & 0xFC == b & 0xFC;
  }

  /** The last part of Check. */
  method CompareChecksum(bits: array<bv8>, nWordCount: nat, digest: Digest, ghost k: nat) returns (fResult: bool)
    requires bits.Length == 33 && nWordCount == 3 * k && (k == 4 || k == 6 || k == 8)
    modifies bits
    ensures fResult <==> forall j :: 0 <= j < k ==> Has(digest(old(bits[..4 * k])), j) == Has(old(bits[4 * k]), j)
  {
    hide Has;
    bits[32] := bits[nWordCount * 4 / 3];
    assert k < 8 ==> bits[..4 * k] == old(bits[..4 * k]);
    assert bits[..4 * k] == old(bits[..4 * k]);
    bits[0] := digest(bits[..nWordCount * 4 / 3]);
    MaskedEqual(bits[0], bits[32]);
    if nWordCount == 12 {
      fResult := bits[0] & 0xF0 == bits[32] & 0xF0;
    } else if nWordCount == 18 {
      fResult := bits[0] & 0xFC == bits[32] & 0xFC;
    } else {
      fResult := bits[0] == bits[32];
    }
  }

  lemma CheckedBits(words: seq<string>, k: nat, wordlist: seq<string>, digest: Digest)
    requires AllKnown(words, wordlist) && |words| == 3 * k && k <= 8
    ensures Checked(words, k, wordlist, digest) <==>
      forall j :: 0 <= j < k ==> Has(digest(EntropyOf(words, k, wordlist)), j) == BitsFor(words, wordlist)[32 * k + j]
  {
    hide Has, BitsFor, AllKnown;
    var (rest, h) := (BitsFor(words, wordlist)[32 * k..], digest(EntropyOf(words, k, wordlist)));
    assert forall j :: 0 <= j < k ==> ByteBits(h)[..k][j] == Has(h, j);
    assert forall j :: 0 <= j < k ==> rest[j] == BitsFor(words, wordlist)[32 * k + j];
    assert |rest| == k;
  }

  /** The bits of the words before position i are collected. */
  ghost predicate Collected(m: string, i: nat, words: seq<string>, buffer: seq<bv8>, wordlist: seq<string>) {
    && Split(m) == words + Tail(m, i) && AllKnown(words, wordlist) && Held(buffer, BitsFor(words, wordlist))
  }

  lemma CollectedParts(m: string, i: nat, words: seq<string>, buffer: seq<bv8>, wordlist: seq<string>)
    requires Collected(m, i, words, buffer, wordlist)
    ensures Split(m) == words + Tail(m, i) && AllKnown(words, wordlist) && Held(buffer, BitsFor(words, wordlist))
  {}

  lemma CollectedMore(m: string, i: nat, words: seq<string>, w: string, buffer: seq<bv8>, wordlist: seq<string>)
    requires AllKnown(words, wordlist) && w in wordlist && Split(m) == words + [w] + Tail(m, i)
    requires Held(buffer, BitsFor(words, wordlist) + BitsOf(IndexOf(wordlist, w), 11))
    ensures Collected(m, i, words + [w], buffer, wordlist)
  {
    hide Split, Tail, BitsFor, BitsOf, Held, AllKnown;
    BitsForAppend(words, w, wordlist);
  }

  lemma CollectedOne(m: string, i: nat, words: seq<string>, wordlist: seq<string>, digest: Digest)
    requires GoodList(wordlist) && i < |m| && Split(m) == words + Tail(m, i)
    ensures var w := FirstWord(m[i..]);
      && Split(m) == words + [w] + Tail(m, i + |w| + 1)
      && if w in wordlist then |w| <= 9 else !Accepted(m, wordlist, digest)
  {
    hide *;
    TailStep(m, i);
    var w, rest := FirstWord(m[i..]), Tail(m, i + |FirstWord(m[i..])| + 1);
    assert words + ([w] + rest) == words + [w] + rest;
    if w in wordlist {
      ListedWords(wordlist, w);
    } else {
      UnknownRejected(m, words, w, rest, wordlist, digest);
    }
  }

  /** One turn of Check's loop. */
  method CollectWord(mnemonic: string, i: nat, bits: array<bv8>, nBitsCount: nat, wordlist: seq<string>,
                     ghost words: seq<string>, ghost digest: Digest) returns (ok: bool, next: nat, ghost word: string)
    requires GoodList(wordlist) && i < |mnemonic| && nBitsCount == 11 * |words| && |Split(mnemonic)| <= 24
    requires Collected(mnemonic, i, words, bits[..], wordlist)
    modifies bits
    ensures !ok ==> !Accepted(mnemonic, wordlist, digest)
    ensures ok ==> i < next <= |mnemonic| + 1 && Collected(mnemonic, next, words + [word], bits[..], wordlist)
  {
    hide Split, FirstWord, GoodList, AllKnown, Held, BitsFor, Has, Accepted, Tail, Collected;
    CollectedParts(mnemonic, i, words, bits[..], wordlist);
    CollectedOne(mnemonic, i, words, wordlist, digest);
    word := FirstWord(mnemonic[i..]);
    var read, ssCurrentWord := ReadWord(mnemonic, i);
    if !read {
      return false, i, word;
    }
    next := i + |ssCurrentWord|;
    var nWordIndex := Lookup(ssCurrentWord, wordlist);
    if nWordIndex == |wordlist| {
      return false, i, word;
    }
    StoreIndex(bits, nBitsCount, nWordIndex, BitsFor(words, wordlist));
    next := next + 1;
    CollectedMore(mnemonic, next, words, word, bits[..], wordlist);
    ok := true;
  }

  /** Check accepts exactly the phrases whose words are listed and whose checksum is right. */
  method Check(mnemonic: string, wordlist: seq<string>, digest: Digest) returns (fResult: bool)
    requires GoodList(wordlist)
    ensures fResult <==> Accepted(mnemonic, wordlist, digest)
  {
    if mnemonic == "" {
      return false;
    }
    var nWordCount := CountWords(mnemonic);
    if nWordCount != 12 && nWordCount != 18 && nWordCount != 24 {
      return false;
    }
    hide Split, Accepted, GoodList, Has, EntropyOf, Collected;
    var bits := new bv8[33](_ => 0);
    var nBitsCount, i: nat := 0, 0;
    ghost var words: seq<string> := [];
    StartHeld(mnemonic, bits[..], wordlist);
    while i < |mnemonic|
      invariant i <= |mnemonic| + 1 && nBitsCount == 11 * |words|
      invariant Collected(mnemonic, i, words, bits[..], wordlist)
    {
      var ok, next, word := CollectWord(mnemonic, i, bits, nBitsCount, wordlist, words, digest);
      if !ok {
        return false;
      }
      i := next;
      words := words + [word];
      nBitsCount := nBitsCount + 11;
    }
    CollectedAll(mnemonic, i, words, bits[..], wordlist, digest);
    if nBitsCount != nWordCount * 11 {
      return false;
    }
    ghost var k := nWordCount / 3;
    assert nWordCount == 3 * k;
    AcceptedBits(mnemonic, bits[..], k, wordlist, digest);
    assert bits[..][..4 * k] == bits[..4 * k];
    fResult := CompareChecksum(bits, nWordCount, digest, k);
  }

  lemma CollectedAll(m: string, i: nat, words: seq<string>, buffer: seq<bv8>, wordlist: seq<string>, digest: Digest)
    requires GoodList(wordlist) && |m| <= i <= |m| + 1 && Collected(m, i, words, buffer, wordlist)
    ensures |words| != |Split(m)| ==> !Accepted(m, wordlist, digest)
    ensures |words| == |Split(m)| ==> words == Split(m) && AllKnown(words, wordlist) && Held(buffer, BitsFor(words, wordlist))
  {
    hide Accepted, Split, GoodList, Held, Tail;
    if |words| != |Split(m)| {
      TailEnd(m, i, words, wordlist, digest);
    }
  }

  lemma AcceptedBits(m: string, buffer: seq<bv8>, k: nat, wordlist: seq<string>, digest: Digest)
    requires m != "" && |Split(m)| == 3 * k && (k == 4 || k == 6 || k == 8)
    requires AllKnown(Split(m), wordlist) && Held(buffer, BitsFor(Split(m), wordlist))
    ensures |buffer| == 33
    ensures Accepted(m, wordlist, digest) <==> forall j :: 0 <= j < k ==> Has(digest(buffer[..4 * k]), j) == Has(buffer[4 * k], j)
  {
    hide Split, Held, Checked, AllKnown, BitsFor, Has, EntropyOf;
    var words := Split(m);
    BufferRead(buffer, words, k, wordlist);
    CheckedBits(words, k, wordlist, digest);
    assert Accepted(m, wordlist, digest) <==> Checked(words, k, wordlist, digest);
  }

  lemma StartHeld(m: string, buffer: seq<bv8>, wordlist: seq<string>)
    requires |buffer| == 33 && forall i :: 0 <= i < 33 ==> buffer[i] == 0
    ensures Collected(m, 0, [], buffer, wordlist)
  {
    assert m[0..] == m;
  }

  /** A phrase that ends in a space has an empty last word, which is never listed. */
  lemma TailEnd(m: string, i: nat, words: seq<string>, wordlist: seq<string>, digest: Digest)
    requires GoodList(wordlist) && |m| <= i <= |m| + 1 && Split(m) == words + Tail(m, i) && |words| != |Split(m)|
    ensures !Accepted(m, wordlist, digest)
  {
    assert m[i..] == "";
    assert Tail(m, i) == [""] + [];
    if "" in wordlist {
      ListedWords(wordlist, "");
    }
    UnknownRejected(m, words, "", [], wordlist, digest);
  }
}
