/** The block tree, its skip list and the active chain (chain.h, chain.cpp, main.cpp). */
module Chain {
  import opened Digits

  ///////////////////////////////////////////////////////////////////////////////////////////////
  // Heights to skip to
  ///////////////////////////////////////////////////////////////////////////////////////////////

  function LowestOne(n: nat): (r: nat)
    requires n > 0
    ensures 0 < r <= n
  {
    if n % 2 == 1 then 1 else 2 * LowestOne(n / 2)
  }

  /** Turns the lowest 1 bit into a 0. */
  function InvertLowestOne(n: nat): (r: nat)
    ensures r <= n && (n > 0 ==> r < n)
  {
    if n == 0 then 0 else n - LowestOne(n)
  }

  predicate BitOf(n: nat, j: nat) {
    if j == 0 then n % 2 == 1 else BitOf(n / 2, j - 1)
  }

  /** It is the bitwise "and" of n and n - 1. */
  lemma {:induction false} InvertIsAnd(n: nat, j: nat)
    requires n > 0
    ensures BitOf(InvertLowestOne(n), j) <==> BitOf(n, j) && BitOf(n - 1, j)
    decreases j
  {
    var r := InvertLowestOne(n);
    if n % 2 == 1 {
      assert r == n - 1 && r / 2 == n / 2 && r % 2 == 0;
    } else {
      assert r == 2 * InvertLowestOne(n / 2);
      if j > 0 {
        InvertIsAnd(n / 2, j - 1);
        assert (n - 1) / 2 == n / 2 - 1;
      }
    }
  }

  function GetSkipHeight(height: nat): (r: nat)
    ensures height > 0 ==> r < height
    ensures height == 0 ==> r == 0
  {
    if height < 2 then 0
    else if height % 2 == 1 then InvertLowestOne(InvertLowestOne(height - 1)) + 1
    else InvertLowestOne(height)
  }

  /** Where one turn of GetAncestor's loop goes from height h on the way back to height t. */
  function NextHeight(h: nat, t: nat): (r: nat)
    requires t < h
    ensures t <= r < h
  {
    var skip, skipPrev := GetSkipHeight(h), GetSkipHeight(h - 1);
    if skip == t || (skip > t && !(skipPrev < skip - 2 && skipPrev >= t)) then skip else h - 1
  }

  /** The number of turns. */
  function Steps(h: nat, t: nat): nat
    requires t <= h
  {
    if h == t then 0 else 1 + Steps(NextHeight(h, t), t)
  }

  /** The number of 1 bits. */
  function Ones(n: nat): nat {
    if n == 0 then 0 else n % 2 + Ones(n / 2)
  }

  lemma {:induction false} OnesInverted(n: nat)
    requires n > 0
    ensures Ones(InvertLowestOne(n)) == Ones(n) - 1
    decreases n
  {
    hide Ones, LowestOne, InvertLowestOne;
    var q := n / 2;
    Doubled(q);
    InvertDoubled(q);
    if n == 2 * q {
      OnesInverted(q);
      Doubled(InvertLowestOne(q));
    }
  }

  lemma {:induction false} OnesBound(n: nat, m: nat)
    requires n < Pow(2, m)
    ensures Ones(n) <= m
    decreases m
  {
    if n > 0 {
      OnesBound(n / 2, m - 1);
    }
  }

  lemma {:induction false} OnesSplit(u: nat, a: nat, m: nat)
    requires a < Pow(2, m)
    ensures Ones(u * Pow(2, m) + a) == Ones(u) + Ones(a)
    decreases m
  {
    hide Ones;
    if m == 0 {
      NoOnes(a);
    } else {
      var p := Pow(2, m - 1);
      OnesSplit(u, a / 2, m - 1);
      MulSwap(u, 2, p);
      MulSwap(2, u, p);
      assert u * Pow(2, m) + a == 2 * (u * p + a / 2) + a % 2;
      Doubled(u * p + a / 2);
      Doubled(a / 2);
      assert a == 2 * (a / 2) + a % 2;
    }
  }

  /** The skip from an odd height saves a 1 bit, and the block before has no better one. */
  lemma OddSkip(h: nat)
    requires h > 1 && h % 2 == 1
    ensures Ones(GetSkipHeight(h)) <= Ones(h) - 1 && Ones(h - 1) == Ones(h) - 1
    ensures GetSkipHeight(h - 1) > GetSkipHeight(h) - 2
  {
    var x := h - 1;
    OnesInverted(x);
    var z := InvertLowestOne(x);
    if z > 0 {
      OnesInverted(z);
    }
    assert h / 2 == x / 2;
    EvenInverted(x);
    EvenInverted(z);
    var w := InvertLowestOne(z);
    assert (w + 1) / 2 == w / 2 && (w + 1) % 2 == 1;
  }

  lemma EvenInverted(x: nat)
    requires x % 2 == 0
    ensures InvertLowestOne(x) % 2 == 0
  {}

  lemma {:induction false} SomeOne(n: nat)
    requires n > 0
    ensures Ones(n) > 0
    decreases n
  {
    if n % 2 == 0 {
      SomeOne(n / 2);
    }
  }

  lemma NoOnes(n: nat)
    ensures Ones(n) == 0 <==> n == 0
  {
    if n > 0 {
      SomeOne(n);
    }
  }

  lemma Doubled(n: nat)
    ensures Ones(2 * n) == Ones(n) && Ones(2 * n + 1) == Ones(n) + 1
    ensures LowestOne(2 * n + 1) == 1 && (n > 0 ==> LowestOne(2 * n) == 2 * LowestOne(n))
  {
    assert 2 * n / 2 == n && (2 * n + 1) / 2 == n;
  }

  lemma OnesOfFour(q: nat)
    requires q % 2 == 1
    ensures Ones(4 * q - 2) == Ones(4 * q) == Ones(q)
  {
    hide Ones;
    Doubled(2 * q - 1);
    Doubled(q - 1);
    Doubled(q / 2);
    assert q == 2 * (q / 2) + 1;
    Doubled(2 * q);
    Doubled(q);
  }

  lemma InvertDoubled(n: nat)
    ensures InvertLowestOne(2 * n) == 2 * InvertLowestOne(n) && InvertLowestOne(2 * n + 1) == 2 * n
  {
    Doubled(n);
  }

  lemma ThreeLowBits(q: nat)
    ensures InvertLowestOne(8 * q + 6) == 8 * q + 4 && InvertLowestOne(8 * q + 4) == 8 * q
    ensures InvertLowestOne(8 * q + 8) <= 8 * q
  {
    hide InvertLowestOne;
    InvertDoubled(4 * q + 3);
    InvertDoubled(2 * q + 1);
    InvertDoubled(4 * q + 2);
    InvertDoubled(q);
    InvertDoubled(4 * q + 4);
    InvertDoubled(2 * q + 2);
    InvertDoubled(q + 1);
  }

  lemma SkipBefore(x: nat)
    requires x > 1
    ensures GetSkipHeight(2 * x) == InvertLowestOne(2 * x)
    ensures GetSkipHeight(2 * x - 1) == InvertLowestOne(InvertLowestOne(2 * x - 2)) + 1
  {
    hide InvertLowestOne;
    assert 2 * x - 1 == 2 * (x - 1) + 1;
  }

  lemma SkipFromEight(q: nat)
    ensures GetSkipHeight(8 * q + 7) == 8 * q + 1 && GetSkipHeight(8 * q + 8) <= 8 * q
  {
    hide InvertLowestOne, GetSkipHeight;
    ThreeLowBits(q);
    SkipBefore(4 * q + 4);
  }

  lemma TwoCleared(n: nat)
    requires n > 0
    ensures Ones(InvertLowestOne(InvertLowestOne(2 * n)) + 1) == if Ones(2 * n) < 2 then 1 else Ones(2 * n) - 1
  {
    hide Ones, LowestOne, InvertLowestOne;
    var z := InvertLowestOne(n);
    var w := InvertLowestOne(z);
    InvertDoubled(n);
    InvertDoubled(z);
    OnesInverted(2 * n);
    NoOnes(2 * z);
    NoOnes(2 * w);
    if z > 0 {
      OnesInverted(2 * z);
    } else {
      NothingToInvert();
    }
    Doubled(w);
  }

  lemma NothingToInvert()
    ensures InvertLowestOne(0) == 0
  {}

  lemma OnesTwoBefore(h: nat, q: nat)
    requires h == 4 * q + 2 || (h == 4 * q && q % 2 == 1)
    ensures Ones(h - 2) <= Ones(h)
  {
    hide Ones;
    if h == 4 * q + 2 {
      Doubled(2 * q + 1);
      Doubled(2 * q);
      Doubled(q);
    } else {
      OnesOfFour(q);
    }
  }

  /** Where the block before has the better skip, two steps save a 1 bit. */
  lemma BetterSkip(h: nat)
    requires h > 0 && h % 2 == 0 && GetSkipHeight(h - 1) < GetSkipHeight(h) - 2
    ensures Ones(GetSkipHeight(h - 1)) <= Ones(h) - 1
  {
    hide Ones, InvertLowestOne, GetSkipHeight;
    var x := h / 2;
    var q := x / 2;
    assert h == 2 * x && x > 0;
    if x % 2 == 1 {
      assert x == 2 * q + 1;
      BetterSkipOf(x, q);
    } else if q % 2 == 1 {
      assert x == 2 * q;
      BetterSkipOf(x, q);
    } else {
      assert x == 2 * q && q == 2 * (q / 2);
      SkipFromEight(q / 2 - 1);
    }
  }

  lemma BetterSkipOf(x: nat, q: nat)
    requires x > 0 && GetSkipHeight(2 * x - 1) < GetSkipHeight(2 * x) - 2
    requires x == 2 * q + 1 || (x == 2 * q && q % 2 == 1)
    ensures Ones(GetSkipHeight(2 * x - 1)) <= Ones(2 * x) - 1
  {
    hide Ones, InvertLowestOne, GetSkipHeight;
    if x > 1 {
      SkipBefore(x);
      OnesTwoBefore(2 * x, q);
      TwoCleared(x - 1);
      OnesInverted(2 * x);
      NoOnes(InvertLowestOne(2 * x));
    } else {
      FirstSkips();
    }
  }

  lemma FirstSkips()
    ensures GetSkipHeight(1) == GetSkipHeight(2) == 0
  {}

  /** A number is an odd multiple of its lowest 1 bit, which is a power of 2. */
  lemma {:induction false} LowestOnePower(n: nat) returns (j: nat, q: nat)
    requires n > 0
    ensures LowestOne(n) == Pow(2, j) && n == q * Pow(2, j) + Pow(2, j)
    decreases n
  {
    if n % 2 == 1 {
      j, q := 0, n - 1;
    } else {
      j, q := LowestOnePower(n / 2);
      j := j + 1;
      MulSwap(q, 2, Pow(2, j - 1));
    }
  }

  lemma {:induction false} LowestOneLow(u: nat, a: nat, m: nat)
    requires 0 < a < Pow(2, m)
    ensures LowestOne(u * Pow(2, m) + a) == LowestOne(a)
    decreases m
  {
    MulSwap(u, 2, Pow(2, m - 1));
    assert u * Pow(2, m) == 2 * (u * Pow(2, m - 1));
    if a % 2 == 0 {
      LowestOneLow(u, a / 2, m - 1);
      assert (u * Pow(2, m) + a) / 2 == u * Pow(2, m - 1) + a / 2;
    }
  }

  /** One or two turns, without passing the target, that save a 1 bit. */
  ghost predicate Saves(h: nat, t: nat, g: nat)
    requires t < h
  {
    t <= g < h && Steps(h, t) <= 2 + Steps(g, t) && Ones(g) < Ones(h)
  }

  lemma OddStep(h: nat, t: nat)
    requires t < h && h % 2 == 1
    ensures Saves(h, t, NextHeight(h, t))
  {
    if h > 1 {
      OddSkip(h);
    }
  }

  /** From an even height the walk skips, or goes to the block before to skip from there. */
  lemma EvenNext(h: nat, t: nat)
    requires t < h && h % 2 == 0 && InvertLowestOne(h) >= t
    ensures NextHeight(h, t) == InvertLowestOne(h)
      || (t < NextHeight(h, t) == h - 1 && GetSkipHeight(h - 1) < GetSkipHeight(h) - 2
          && NextHeight(h - 1, t) == GetSkipHeight(h - 1))
  {
    hide InvertLowestOne, Ones;
    assert GetSkipHeight(h) == InvertLowestOne(h);
    hide GetSkipHeight;
    if h > 2 {
      OddSkip(h - 1);
    } else {
      FirstSkips();
    }
  }

  lemma StepsNext(h: nat, t: nat)
    requires t < h
    ensures Steps(h, t) == 1 + Steps(NextHeight(h, t), t)
  {}

  lemma EvenStep(h: nat, t: nat) returns (g: nat)
    requires t < h && h % 2 == 0 && InvertLowestOne(h) >= t
    ensures Saves(h, t, g)
  {
    hide InvertLowestOne, Ones, GetSkipHeight, NextHeight, Steps;
    OnesInverted(h);
    EvenNext(h, t);
    g := NextHeight(h, t);
    StepsNext(h, t);
    if g != InvertLowestOne(h) {
      BetterSkip(h);
      StepsNext(h - 1, t);
      g := GetSkipHeight(h - 1);
    }
  }

  /**
   Back to a block that agrees with the height in all but the m low bits: each 1 bit there costs at
   most two turns, and running into a bit that must not be cleared starts over below that bit.
   */
  lemma {:induction false} StepsLow(m: nat, u: nat, a: nat, b: nat)
    requires b <= a < Pow(2, m)
    ensures Steps(u * Pow(2, m) + a, u * Pow(2, m) + b) <= 2 * Ones(a) + m * m
    decreases m, a
  {
    hide Steps, Ones, NextHeight, LowestOne, Pow;
    var p := u * Pow(2, m);
    var h, t := p + a, p + b;
    if b == a {
      NoSteps(h);
    } else if h % 2 == 0 && InvertLowestOne(h) < t {
      LowestOneLow(u, a, m);
      StepsBlocked(m, h, t);
    } else {
      var g;
      if h % 2 == 1 {
        g := NextHeight(h, t);
        OddStep(h, t);
      } else {
        g := EvenStep(h, t);
      }
      StepsLow(m, u, g - p, b);
      OnesSplit(u, a, m);
      OnesSplit(u, g - p, m);
    }
  }

  lemma NoSteps(h: nat)
    ensures Steps(h, h) == 0
  {}

  /** The lowest 1 bit must not be cleared. */
  lemma {:induction false} StepsBlocked(m: nat, h: nat, t: nat)
    requires t < h && h % 2 == 0 && InvertLowestOne(h) < t && LowestOne(h) < Pow(2, m)
    ensures Steps(h, t) <= m * m
    decreases m, 0
  {
    var j, q := LowestOnePower(h);
    var p := Pow(2, j);
    if j >= m {
      PowMonoExp(2, m, j);
    }
    assert NextHeight(h, t) == h - 1;
    assert h - 1 == q * p + (p - 1) && t - q * p <= p - 1;
    StepsLow(j, q, p - 1, t - q * p);
    OnesBound(p - 1, j);
    MulMono(j + 1, m, j + 1, m);
    assert (j + 1) * (j + 1) == j * j + 2 * j + 1;
  }

  /** Among fewer than 2^m blocks an ancestor is at most m^2 + 2 * m turns away. */
  lemma StepsAreFew(h: nat, t: nat)
    requires t <= h
    ensures forall m: nat :: h < Pow(2, m) ==> Steps(h, t) <= m * m + 2 * m
  {
    hide Steps, Ones, Pow;
    forall m: nat | h < Pow(2, m) ensures Steps(h, t) <= m * m + 2 * m {
      StepsLow(m, 0, h, t);
      OnesBound(h, m);
    }
  }

  ///////////////////////////////////////////////////////////////////////////////////////////////
  // The block tree
  ///////////////////////////////////////////////////////////////////////////////////////////////

  /** An entry of the block tree; its links are set when it is added and never change. */
  class CBlockIndex {
    const pprev: CBlockIndex?
    const pskip: CBlockIndex?
    const nHeight: nat
    const hash: nat

    /** Linked back to a block without predecessor at height 0, with every skip link in place. */
    ghost predicate Valid()
      decreases nHeight, 0
    {
      if pprev == null then nHeight == 0 && pskip == null
      else pprev.nHeight + 1 == nHeight && pprev.Valid() && pskip == pprev.At(GetSkipHeight(nHeight))
    }

    /** The ancestor at a height: walking pprev. */
    ghost function At(h: nat): (b: CBlockIndex)
      requires Valid() && h <= nHeight
      ensures b.nHeight == h && b.Valid()
      decreases nHeight, 1
    {
      if h == nHeight then this else pprev.At(h)
    }

    lemma {:induction false} AtAt(h: nat, g: nat)
      requires Valid() && g <= h <= nHeight
      ensures At(h).At(g) == At(g)
      decreases nHeight
    {
      if h < nHeight {
        pprev.AtAt(h, g);
      }
    }

    lemma OneBack()
      requires Valid()
      ensures if nHeight == 0 then pprev == null else pprev != null && pprev == At(nHeight - 1)
    {}

    lemma SkipIs()
      requires Valid() && nHeight > 0
      ensures pskip != null && pskip == At(GetSkipHeight(nHeight))
    {
      hide GetSkipHeight;
    }

    /** One step back. */
    lemma PrevAt(h: nat)
      requires Valid() && h <= nHeight
      ensures if h == 0 then At(h).pprev == null else At(h).pprev != null && At(h).pprev == At(h - 1)
    {
      hide Valid, At;
      At(h).OneBack();
      if h > 0 {
        AtAt(h, h - 1);
      }
    }

    /** Adds a block on top of another one, with its skip link. */
    constructor (hash: nat, prev: CBlockIndex?)
      requires prev != null ==> prev.Valid()
      ensures Valid() && this.hash == hash && pprev == prev
      ensures nHeight == if prev == null then 0 else prev.nHeight + 1
    {
      var skip: CBlockIndex? := null;
      var height := 0;
      if prev != null {
        height := prev.nHeight + 1;
        ghost var steps;
        skip, steps := prev.GetAncestor(GetSkipHeight(height));
      }
      this.hash := hash;
      pprev := prev;
      nHeight := height;
      pskip := skip;
    }

    /** Follows skip links where they help; arrives at the block that walking would reach, in few steps. */
    method GetAncestor(height: int) returns (r: CBlockIndex?, ghost steps: nat)
      requires Valid()
      ensures r == null <==> height > nHeight || height < 0
      ensures 0 <= height <= nHeight ==> r == At(height)
      ensures forall m: nat :: nHeight < Pow(2, m) ==> steps <= m * m + 2 * m
    {
      hide Steps, Pow, GetSkipHeight, Valid, At;
      steps := 0;
      if height > nHeight || height < 0 {
        return null, 0;
      }
      var pindexWalk := this;
      var heightWalk := nHeight;
      SelfAt(this);
      while heightWalk > height
        invariant height <= heightWalk <= nHeight && pindexWalk == At(heightWalk)
        invariant steps + Steps(heightWalk, height) == Steps(nHeight, height)
      {
        StepsNext(heightWalk, height);
        steps := steps + 1;
        var heightSkip := GetSkipHeight(heightWalk);
        var heightSkipPrev := GetSkipHeight(heightWalk - 1);
        if heightSkip == height || (heightSkip > height && !(heightSkipPrev < heightSkip - 2 && heightSkipPrev >= height)) {
          pindexWalk.SkipIs();
          AtAt(heightWalk, heightSkip);
          pindexWalk := pindexWalk.pskip;
          heightWalk := heightSkip;
        } else {
          pindexWalk.OneBack();
          AtAt(heightWalk, heightWalk - 1);
          pindexWalk := pindexWalk.pprev;
          heightWalk := heightWalk - 1;
        }
      }
      r := pindexWalk;
      NoSteps(height);
      StepsAreFew(nHeight, height);
    }
  }

  /** `a` is `b` or an ancestor of it. */
  ghost predicate IsAncestor(a: CBlockIndex, b: CBlockIndex)
    requires b.Valid()
  {
    a.nHeight <= b.nHeight && b.At(a.nHeight) == a
  }

  lemma SelfAt(b: CBlockIndex)
    requires b.Valid()
    ensures b.At(b.nHeight) == b
  {}

  /** The last block that two blocks have in common, or null when they do not even share the first one. */
  method LastCommonAncestor(a: CBlockIndex, b: CBlockIndex) returns (r: CBlockIndex?)
    requires a.Valid() && b.Valid()
    ensures r == null <==> a.At(0) != b.At(0)
    ensures r != null ==> IsAncestor(r, a) && IsAncestor(r, b)
    ensures r != null ==> forall h :: r.nHeight < h <= a.nHeight && h <= b.nHeight ==> a.At(h) != b.At(h)
  {
    hide CBlockIndex.Valid, CBlockIndex.At;
    SelfAt(a);
    SelfAt(b);
    var pa: CBlockIndex?, pb: CBlockIndex? := a, b;
    if pa.nHeight > pb.nHeight {
      ghost var steps;
      pa, steps := pa.GetAncestor(pb.nHeight);
    } else if pb.nHeight > pa.nHeight {
      ghost var steps;
      pb, steps := pb.GetAncestor(pa.nHeight);
    }
    ghost var h: int := pa.nHeight;
    while pa != pb && pa != null && pb != null
      invariant -1 <= h <= a.nHeight && h <= b.nHeight
      invariant if h == -1 then pa == pb == null else pa == a.At(h) && pb == b.At(h)
      invariant forall g :: h < g <= a.nHeight && 0 <= g <= b.nHeight ==> a.At(g) != b.At(g)
      decreases h
    {
      a.PrevAt(h);
      b.PrevAt(h);
      pa := pa.pprev;
      pb := pb.pprev;
      h := h - 1;
    }
    if h >= 0 {
      a.AtAt(h, 0);
      b.AtAt(h, 0);
    }
    assert pa == pb; // eventually all branches meet
    r := pa;
  }

  ///////////////////////////////////////////////////////////////////////////////////////////////
  // The active chain
  ///////////////////////////////////////////////////////////////////////////////////////////////

  /** All blocks from height 0 up to a block. */
  ghost function PathTo(b: CBlockIndex?): (path: seq<CBlockIndex?>)
    requires b != null ==> b.Valid()
    ensures |path| == if b == null then 0 else b.nHeight + 1
  {
    if b == null then [] else seq(b.nHeight + 1, h requires 0 <= h <= b.nHeight => b.At(h))
  }

  lemma PathIs(v: seq<CBlockIndex?>, b: CBlockIndex)
    requires b.Valid() && |v| == b.nHeight + 1 && forall h :: 0 <= h <= b.nHeight ==> v[h] == b.At(h)
    ensures v == PathTo(b) && v[|v| - 1] == b
  {
    SelfAt(b);
  }

  lemma PathAt(b: CBlockIndex, h: nat)
    requires b.Valid() && h <= b.nHeight
    ensures PathTo(b)[h] == b.At(h)
  {}

  /** A block shared with an old path shares everything before it. */
  lemma SharedBefore(a: CBlockIndex, b: CBlockIndex, g: nat, h: nat)
    requires a.Valid() && b.Valid() && h <= g <= a.nHeight && g <= b.nHeight && a.At(g) == b.At(g)
    ensures a.At(h) == b.At(h)
  {
    a.AtAt(g, h);
    b.AtAt(g, h);
  }

  class CChain {
    var vChain: seq<CBlockIndex?>

    ghost predicate Valid()
      reads this
    {
      vChain != [] ==>
        var tip := vChain[|vChain| - 1];
        tip != null && tip.Valid() && vChain == PathTo(tip)
    }

    constructor ()
      ensures Valid() && vChain == []
    {
      vChain := [];
    }

    function Genesis(): CBlockIndex?
      reads this
    {
      if |vChain| > 0 then vChain[0] else null
    }

    function Tip(): CBlockIndex?
      reads this
    {
      if |vChain| < 1 then null else vChain[|vChain| - 1]
    }

    /** The entry at a height, or null when there is no such height. */
    function Get(nHeight: int): CBlockIndex?
      reads this
    {
      if nHeight < 0 || nHeight >= |vChain| then null else vChain[nHeight]
    }

    predicate Contains(pindex: CBlockIndex)
      reads this
    {
      Get(pindex.nHeight) == pindex
    }

    function Next(pindex: CBlockIndex): CBlockIndex?
      reads this
    {
      if Contains(pindex) then Get(pindex.nHeight + 1) else null
    }

    function Height(): int
      reads this
    {
      |vChain| - 1
    }

    lemma GetIs(h: int)
      requires Valid()
      ensures Get(h) == null <==> h < 0 || h > Height()
      ensures 0 <= h <= Height() ==> Tip() != null && Tip().Valid() && Tip().nHeight == Height() && Get(h) == Tip().At(h)
    {
      if 0 <= h <= Height() {
        PathAt(Tip(), h);
      }
    }

    /** Containment means being the tip or an ancestor of it. */
    lemma ContainsIsAncestor(pindex: CBlockIndex)
      requires Valid()
      ensures Contains(pindex) <==> Tip() != null && Tip().Valid() && IsAncestor(pindex, Tip())
    {
      GetIs(pindex.nHeight);
    }

    /** Next leads from a contained block to the block above it, whose predecessor it is, and to none from the tip. */
    lemma NextIs(pindex: CBlockIndex)
      requires Valid() && Contains(pindex)
      ensures Next(pindex) == null <==> pindex == Tip()
      ensures Next(pindex) != null ==> Contains(Next(pindex)) && Next(pindex).pprev == pindex
    {
      hide CBlockIndex.Valid, CBlockIndex.At, PathTo;
      GetIs(pindex.nHeight);
      GetIs(pindex.nHeight + 1);
      if pindex.nHeight < Height() {
        Tip().PrevAt(pindex.nHeight + 1);
      } else {
        SelfAt(Tip());
      }
    }

    /** Sets the tip, rewriting entries only down to the first one that is right already. */
    method SetTip(pindex: CBlockIndex?)
      requires Valid() && (pindex != null ==> pindex.Valid())
      modifies this
      ensures Valid() && Tip() == pindex && vChain == PathTo(pindex)
    {
      if pindex == null {
        vChain := [];
        return;
      }
      var size := pindex.nHeight + 1;
      vChain := FillDown(if size <= |vChain| then vChain[..size] else vChain + seq(size - |vChain|, _ => null), pindex, vChain);
      PathIs(vChain, pindex);
    }

    /** The loop of SetTip, on the resized vector. */
    static method FillDown(resized: seq<CBlockIndex?>, pindex: CBlockIndex, ghost before: seq<CBlockIndex?>)
      returns (v: seq<CBlockIndex?>)
      requires before != [] ==> var t := before[|before| - 1]; t != null && t.Valid() && before == PathTo(t)
      requires pindex.Valid() && |resized| == pindex.nHeight + 1
      requires forall h :: 0 <= h < |resized| ==> resized[h] == if h < |before| then before[h] else null
      ensures |v| == |resized| && forall h :: 0 <= h < |v| ==> v[h] == pindex.At(h)
    {
      hide CBlockIndex.Valid, CBlockIndex.At, PathTo;
      v := resized;
      var walk: CBlockIndex? := pindex;
      ghost var height: int := pindex.nHeight;
      SelfAt(pindex);
      while walk != null && v[walk.nHeight] != walk
        invariant |v| == |resized| && -1 <= height < |v|
        invariant if height == -1 then walk == null else walk != null && walk == pindex.At(height)
        invariant forall h :: height < h < |v| ==> v[h] == pindex.At(h)
        invariant forall h :: 0 <= h <= height ==> v[h] == if h < |before| then before[h] else null
        decreases height
      {
        pindex.PrevAt(height);
        v := v[walk.nHeight := walk];
        walk := walk.pprev;
        height := height - 1;
      }
      if walk != null {
        KeptBelow(before, pindex, height);
      }
    }

    static lemma KeptBelow(before: seq<CBlockIndex?>, pindex: CBlockIndex, height: nat)
      requires before != [] ==> var t := before[|before| - 1]; t != null && t.Valid() && before == PathTo(t)
      requires pindex.Valid() && height <= pindex.nHeight && height < |before| && before[height] == pindex.At(height)
      ensures forall h :: 0 <= h <= height ==> before[h] == pindex.At(h)
    {
      var t := before[|before| - 1];
      PathAt(t, height);
      forall h | 0 <= h <= height ensures before[h] == pindex.At(h) {
        PathAt(t, h);
        SharedBefore(t, pindex, height, h);
      }
    }

    /** The last block that a block's own chain and this one have in common, if any. */
    method FindFork(pindex: CBlockIndex) returns (fork: CBlockIndex?)
      requires Valid() && pindex.Valid()
      ensures fork != null ==> Contains(fork) && IsAncestor(fork, pindex)
      ensures forall h :: (if fork == null then 0 else fork.nHeight + 1) <= h <= pindex.nHeight ==> !Contains(pindex.At(h))
    {
      hide CBlockIndex.Valid, CBlockIndex.At, PathTo;
      var walk: CBlockIndex? := pindex;
      SelfAt(pindex);
      if walk.nHeight > Height() {
        ghost var steps;
        walk, steps := walk.GetAncestor(Height());
      }
      ghost var height: int := if walk == null then -1 else walk.nHeight;
      while walk != null && !Contains(walk)
        invariant -1 <= height <= pindex.nHeight
        invariant if height == -1 then walk == null else walk != null && walk == pindex.At(height)
        invariant forall h :: height < h <= pindex.nHeight ==> !Contains(pindex.At(h))
        decreases height
      {
        pindex.PrevAt(height);
        walk := walk.pprev;
        height := height - 1;
      }
      fork := walk;
    }

    /**
     Hashes of ever sparser ancestors, from the given block (or the tip) down to the first block:
     the last ten steps one by one, then steps that double.
     */
    method GetLocator(start: CBlockIndex?) returns (vHave: seq<nat>, ghost blocks: seq<CBlockIndex>)
      requires Valid() && (start != null ==> start.Valid())
      ensures |vHave| == |blocks| && forall i :: 0 <= i < |vHave| ==> vHave[i] == blocks[i].hash
      ensures var from := if start == null then Tip() else start;
        if from == null then vHave == [] else IsLocator(from, blocks) && ShortEnough(from.nHeight, |vHave|)
      ensures var from := if start == null then Tip() else start;
        from != null ==> forall i :: 0 <= i < |blocks| && i <= 11 ==> blocks[i].nHeight == Clip(from.nHeight - i)
    {
      hide CBlockIndex.Valid, CBlockIndex.At, PathTo, Valid, Dropped, Step, Sparse, Descends, ShortEnough;
      NoBlocks(if start == null then Tip() else start);
      var nStep := 1;
      vHave, blocks := [], [];
      var pindex := start;
      if pindex == null {
        pindex := Tip();
        TipValid();
      }
      if pindex == null {
        return;
      }
      ghost var from := pindex;
      SelfAt(from);
      FirstStep();
      while pindex != null
        invariant |vHave| == |blocks| && forall i :: 0 <= i < |vHave| ==> vHave[i] == blocks[i].hash
        invariant if blocks == [] then pindex == from else blocks[0] == from
        invariant Descends(from, blocks) && Sparse(from.nHeight, blocks) && nStep == Step(|vHave|)
        invariant pindex != null && IsAncestor(pindex, from)
        invariant pindex.nHeight == Clip(from.nHeight - Dropped(|vHave|))
        invariant |vHave| > 0 ==> pindex.nHeight < blocks[|blocks| - 1].nHeight && Dropped(|vHave| - 1) < from.nHeight
        decreases pindex.nHeight
      {
        OneMoreBlock(from, blocks, pindex);
        vHave := vHave + [pindex.hash];
        blocks := blocks + [pindex];
        if pindex.nHeight == 0 {
          break;
        }
        NextStep(|vHave| - 1);
        var nHeight := Clip(pindex.nHeight - nStep);
        from.AtAt(pindex.nHeight, nHeight);
        pindex := StepBack(pindex, nHeight);
        if |vHave| > 10 {
          nStep := nStep * 2;
        }
      }
      LocatorShort(from.nHeight, |vHave|);
      FirstDropped();
      SparseAt(from.nHeight, blocks);
    }

    /** The block at a height below: from the vector if possible, otherwise along the skip links. */
    method StepBack(pindex: CBlockIndex, nHeight: nat) returns (r: CBlockIndex)
      requires Valid() && pindex.Valid() && nHeight <= pindex.nHeight
      ensures r == pindex.At(nHeight)
    {
      hide CBlockIndex.Valid, CBlockIndex.At, PathTo, Valid;
      if Contains(pindex) {
        AncestorContained(pindex, nHeight);
        r := Get(nHeight);
      } else {
        var found;
        ghost var steps;
        found, steps := pindex.GetAncestor(nHeight);
        r := found;
      }
    }

    lemma TipValid()
      requires Valid()
      ensures Tip() != null ==> Tip().Valid()
    {}

    lemma AncestorContained(b: CBlockIndex, h: nat)
      requires Valid() && b.Valid() && Contains(b) && h <= b.nHeight
      ensures Get(h) == b.At(h) && Contains(b.At(h))
    {
      hide CBlockIndex.Valid, CBlockIndex.At, PathTo;
      GetIs(b.nHeight);
      GetIs(h);
      SelfAt(b);
      SharedBefore(Tip(), b, b.nHeight, h);
    }
  }

  function Clip(h: int): nat {
    if h < 0 then 0 else h
  }

  /** The step width after so many blocks, and how far below the start the next block is. */
  function Step(n: nat): nat {
    if n <= 10 then 1 else Pow(2, n - 10)
  }

  function Dropped(n: nat): nat {
    if n <= 11 then n else Pow(2, n - 10) + 9
  }

  lemma FirstDropped()
    ensures forall i :: 0 <= i <= 11 ==> Dropped(i) == i
  {}

  /** No step is longer than all steps before it together. */
  lemma StepsDouble(n: nat)
    ensures Dropped(n + 1) <= 2 * Dropped(n) + 1 && Dropped(n) < Dropped(n + 1)
    ensures n > 0 ==> Dropped(n + 1) <= 2 * Dropped(n)
  {
    NextStep(n);
  }

  lemma FirstStep()
    ensures Step(0) == 1 && Dropped(0) == 0
  {}

  lemma NextStep(n: nat)
    ensures Dropped(n + 1) == Dropped(n) + Step(n) && Step(n + 1) == Step(n) * (if n + 1 > 10 then 2 else 1)
    ensures Step(n) > 0
  {
    if n > 10 {
      PowPositive(2, n - 10);
    }
  }

  /** Ancestors of a block, at strictly falling heights. */
  ghost predicate Descends(from: CBlockIndex, blocks: seq<CBlockIndex>)
    requires from.Valid()
  {
    && (forall i :: 0 <= i < |blocks| ==> IsAncestor(blocks[i], from))
    && (forall i, j :: 0 <= i < j < |blocks| ==> blocks[i].nHeight > blocks[j].nHeight)
  }

  /** Each is as far below the height as its place says, or at the very bottom. */
  ghost predicate Sparse(height: nat, blocks: seq<CBlockIndex>) {
    forall i :: 0 <= i < |blocks| ==> blocks[i].nHeight == Clip(height - Dropped(i))
  }

  lemma SparseAt(height: nat, blocks: seq<CBlockIndex>)
    ensures Sparse(height, blocks) ==> forall i :: 0 <= i < |blocks| ==> blocks[i].nHeight == Clip(height - Dropped(i))
  {}

  lemma NoBlocks(from: CBlockIndex?)
    ensures from != null && from.Valid() ==> Descends(from, []) && Sparse(from.nHeight, [])
  {}

  lemma OneMoreBlock(from: CBlockIndex, blocks: seq<CBlockIndex>, b: CBlockIndex)
    requires from.Valid() && Descends(from, blocks) && Sparse(from.nHeight, blocks) && IsAncestor(b, from)
    requires b.nHeight == Clip(from.nHeight - Dropped(|blocks|))
    requires blocks != [] ==> b.nHeight < blocks[|blocks| - 1].nHeight
    ensures Descends(from, blocks + [b]) && Sparse(from.nHeight, blocks + [b])
  {
    hide *;
    OneMoreBelow(from, blocks, b);
    SparseMore(from.nHeight, blocks, b);
  }

  lemma SparseMore(height: nat, blocks: seq<CBlockIndex>, b: CBlockIndex)
    requires Sparse(height, blocks) && b.nHeight == Clip(height - Dropped(|blocks|))
    ensures Sparse(height, blocks + [b])
  {
    hide Dropped, Clip;
    forall i | 0 <= i < |blocks + [b]| ensures (blocks + [b])[i].nHeight == Clip(height - Dropped(i)) {
      assert i < |blocks| ==> (blocks + [b])[i] == blocks[i];
    }
  }

  lemma OneMoreBelow(from: CBlockIndex, blocks: seq<CBlockIndex>, b: CBlockIndex)
    requires from.Valid() && Descends(from, blocks) && IsAncestor(b, from)
    requires blocks != [] ==> b.nHeight < blocks[|blocks| - 1].nHeight
    ensures Descends(from, blocks + [b])
  {
    hide IsAncestor, CBlockIndex.Valid, CBlockIndex.At;
    forall i | 0 <= i < |blocks| ensures blocks[i].nHeight > b.nHeight {
      assert i < |blocks| - 1 ==> blocks[i].nHeight > blocks[|blocks| - 1].nHeight;
    }
  }

  /** They start at the block itself and end at the first block of its chain. */
  ghost predicate IsLocator(from: CBlockIndex, blocks: seq<CBlockIndex>)
    requires from.Valid()
  {
    && blocks != [] && blocks[0] == from && blocks[|blocks| - 1].nHeight == 0
    && Descends(from, blocks) && Sparse(from.nHeight, blocks)
  }

  /** At most twelve entries more than the logarithm of the height. */
  ghost predicate ShortEnough(height: nat, n: nat) {
    n <= 12 || Pow(2, n - 12) + 9 < height
  }

  lemma LocatorShort(height: nat, n: nat)
    requires n >= 2 ==> Dropped(n - 2) < height
    ensures ShortEnough(height, n)
  {
    if n == 13 {
      assert Pow(2, 1) == 2;
    }
  }

  /** The first entry of a locator that is on the active chain; the genesis block when none is. */
  method FindForkInGlobalIndex(mapBlockIndex: map<nat, CBlockIndex>, chain: CChain, vHave: seq<nat>) returns (r: CBlockIndex?)
    requires chain.Valid()
    ensures if i :| OnChain(mapBlockIndex, chain, vHave, i) then exists j ::
        (OnChain(mapBlockIndex, chain, vHave, j) && r == mapBlockIndex[vHave[j]] &&
         forall k :: 0 <= k < j ==> !OnChain(mapBlockIndex, chain, vHave, k))
      else r == chain.Genesis()
  {
    hide CChain.Valid, CChain.Contains;
    for i := 0 to |vHave|
      invariant forall k :: 0 <= k < i ==> !OnChain(mapBlockIndex, chain, vHave, k)
    {
      if vHave[i] in mapBlockIndex {
        var pindex := mapBlockIndex[vHave[i]];
        if chain.Contains(pindex) {
          assert OnChain(mapBlockIndex, chain, vHave, i);
          return pindex;
        }
      }
    }
    return chain.Genesis();
  }

  ghost predicate OnChain(mapBlockIndex: map<nat, CBlockIndex>, chain: CChain, vHave: seq<nat>, i: int)
    reads chain
  {
    0 <= i < |vHave| && vHave[i] in mapBlockIndex && chain.Contains(mapBlockIndex[vHave[i]])
  }

  /**
   The first locator entry on the active chain brackets the true fork: the fork is not below that
   entry and is below the entry before it.  So the entry is at most twice as far back as the fork.
   */
  lemma LocatorBrackets(chain: CChain, from: CBlockIndex, blocks: seq<CBlockIndex>, j: nat, fork: CBlockIndex)
    requires chain.Valid() && from.Valid() && IsLocator(from, blocks) && j < |blocks|
    requires chain.Contains(blocks[j]) && forall k :: 0 <= k < j ==> !chain.Contains(blocks[k])
    requires IsAncestor(fork, from) && chain.Contains(fork)
    requires forall h :: fork.nHeight < h <= from.nHeight ==> !chain.Contains(from.At(h))
    ensures blocks[j].nHeight <= fork.nHeight && (j > 0 ==> fork.nHeight < blocks[j - 1].nHeight)
    ensures from.nHeight - blocks[j].nHeight <= 2 * (from.nHeight - fork.nHeight)
  {
    hide Dropped;
    hide CBlockIndex.Valid, CBlockIndex.At, PathTo, CChain.Valid;
    assert IsAncestor(blocks[j], from);
    if j > 0 {
      var above := blocks[j - 1];
      assert IsAncestor(above, from);
      if above.nHeight <= fork.nHeight {
        chain.AncestorContained(fork, above.nHeight);
        from.AtAt(fork.nHeight, above.nHeight);
      }
      StepsDouble(j - 1);
    }
  }
}
