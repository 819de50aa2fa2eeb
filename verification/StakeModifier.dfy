/** Selection of the blocks that make up the next stake modifier (kernel.cpp). */
module StakeModifier {
  import opened Bytes
  import opened Collections
  import opened Digits
  import opened Sorting

  const MODIFIER_INTERVAL: nat := 60
  const MODIFIER_INTERVAL_RATIO: nat := 3

  /** The fields of a block index entry that selection looks at. */
  datatype Block = Block(hash: nat, time: nat, height: nat, proofOfStake: bool, entropyBit: bool,
                         generated: bool, modifier: nat)

  /** A candidate as it is sorted: its time, then its hash. */
  datatype Candidate = Candidate(time: nat, hash: nat)

  /** The hash of a proof hash with the previous modifier, and the height from which every proof hash counts. */
  datatype Rules = Rules(selectionHash: (nat, nat) -> nat, upgradeHeight: nat)

  type Index = map<nat, Block>

  /** Proof-of-stake blocks are favoured by dividing their hash. */
  function SelectionHash(b: Block, v2: bool, prev: nat, rules: Rules): nat {
    var hashProof := if v2 || !b.proofOfStake then b.hash else 0;
    var hash := rules.selectionHash(hashProof, prev);
    if b.proofOfStake then hash / 0x1_0000_0000 else hash
  }

  /** The block index files every block under its hash. */
  ghost predicate FiledByHash(index: Index) {
    forall h :: h in index ==> index[h].hash == h
  }

  ghost predicate Indexed(cands: seq<Candidate>, index: Index) {
    forall i :: 0 <= i < |cands| ==>
      cands[i].hash in index && index[cands[i].hash].time == cands[i].time
  }

  ghost predicate ByTime(cands: seq<Candidate>) {
    forall i, j :: 0 <= i < j < |cands| ==> cands[i].time <= cands[j].time
  }

  function Hash(cands: seq<Candidate>, index: Index, i: nat, prev: nat, rules: Rules): nat
    requires i < |cands| && cands[i].hash in index && cands[0].hash in index
  {
    SelectionHash(index[cands[i].hash], index[cands[0].hash].height >= rules.upgradeHeight, prev, rules)
  }

  ghost predicate Free(cands: seq<Candidate>, taken: set<nat>, i: int) {
    0 <= i < |cands| && cands[i].hash !in taken
  }

  /**
   The choice of one round: among the free candidates up to the stop time the first with the least
   selection hash, and when there is none the earliest free candidate.
   */
  ghost predicate IsPick(cands: seq<Candidate>, index: Index, taken: set<nat>, stop: int, prev: nat, rules: Rules, p: nat)
    requires Indexed(cands, index)
  {
    && Free(cands, taken, p)
    && if cands[p].time <= stop
       then forall j :: Free(cands, taken, j) && cands[j].time <= stop ==>
         Hash(cands, index, p, prev, rules) < Hash(cands, index, j, prev, rules)
         || (Hash(cands, index, p, prev, rules) == Hash(cands, index, j, prev, rules) && p <= j)
       else forall j :: Free(cands, taken, j) ==> p <= j && cands[j].time > stop
  }

  /** Every round has at most one right choice. */
  lemma PickUnique(cands: seq<Candidate>, index: Index, taken: set<nat>, stop: int, prev: nat, rules: Rules, p: nat, q: nat)
    requires Indexed(cands, index)
    requires IsPick(cands, index, taken, stop, prev, rules, p) && IsPick(cands, index, taken, stop, prev, rules, q)
    ensures p == q
  {
    hide Hash;
  }

  /** What is hashed for a block: nothing of its own for a stake block before the upgrade. */
  function RawHash(cands: seq<Candidate>, index: Index, i: nat, prev: nat, rules: Rules): nat
    requires i < |cands| && cands[i].hash in index && cands[0].hash in index
  {
    var v2 := index[cands[0].hash].height >= rules.upgradeHeight;
    rules.selectionHash(if v2 || !index[cands[i].hash].proofOfStake then index[cands[i].hash].hash else 0, prev)
  }

  /**
   Stake blocks are favoured: a block without stake is picked over a free one with stake up to the stop
   time only if its hash is 2^32 times smaller, and one with stake unless that is so the other way.
   Before the upgrade all stake blocks count the same, so that the earliest of them is the choice.
   */
  lemma StakeIsFavoured(cands: seq<Candidate>, index: Index, taken: set<nat>, stop: int, prev: nat, rules: Rules, p: nat, j: nat)
    requires Indexed(cands, index) && IsPick(cands, index, taken, stop, prev, rules, p)
    requires cands[p].time <= stop && Free(cands, taken, j) && cands[j].time <= stop
    ensures var (h, other) := (RawHash(cands, index, p, prev, rules), RawHash(cands, index, j, prev, rules));
      match (index[cands[p].hash].proofOfStake, index[cands[j].hash].proofOfStake)
      case (false, false) => h <= other
      case (false, true) => h * 0x1_0000_0000 <= other
      case (true, false) => h < (other + 1) * 0x1_0000_0000
      case (true, true) =>
        && h < (other / 0x1_0000_0000 + 1) * 0x1_0000_0000
        && (index[cands[0].hash].height < rules.upgradeHeight ==> p <= j)
  {
    DivideBy(RawHash(cands, index, p, prev, rules));
    DivideBy(RawHash(cands, index, j, prev, rules));
  }

  lemma DivideBy(n: nat)
    ensures var q := n / 0x1_0000_0000; q * 0x1_0000_0000 <= n < (q + 1) * 0x1_0000_0000
  {}

  /** What the scan knows after the first i candidates, with `first` the earliest free one and `best` the choice so far. */
  ghost predicate Scanned(cands: seq<Candidate>, index: Index, taken: set<nat>, stop: int, prev: nat, rules: Rules,
                          i: nat, first: nat, best: nat)
    requires Indexed(cands, index)
  {
    && first <= best < i <= |cands| && Free(cands, taken, first) && Free(cands, taken, best)
    && (forall j :: 0 <= j < first ==> !Free(cands, taken, j))
    && (cands[first].time > stop ==> best == first)
    && (cands[first].time <= stop ==> forall j :: first <= j < i ==> cands[j].time <= stop)
    && (forall j :: first <= j < i && Free(cands, taken, j) && cands[j].time <= stop ==>
          Hash(cands, index, best, prev, rules) < Hash(cands, index, j, prev, rules)
          || (Hash(cands, index, best, prev, rules) == Hash(cands, index, j, prev, rules) && best <= j))
  }

  /** Fails when a candidate that is looked at is not indexed or when all of them are taken. */
  method SelectBlockFromCandidates(cands: seq<Candidate>, index: Index, mapSelectedBlocks: map<nat, Block>, stop: int,
                                   prev: nat, rules: Rules) returns (fSelected: bool, selected: nat)
    requires FiledByHash(index)
    ensures fSelected ==> Free(cands, mapSelectedBlocks.Keys, selected) && cands[selected].hash in index
    ensures Indexed(cands, index) && ByTime(cands) ==>
      if fSelected then IsPick(cands, index, mapSelectedBlocks.Keys, stop, prev, rules, selected)
      else forall j :: 0 <= j < |cands| ==> !Free(cands, mapSelectedBlocks.Keys, j)
  {
    hide SelectionHash;
    ghost var good := Indexed(cands, index) && ByTime(cands);
    ghost var first: nat := 0;
    ghost var taken := mapSelectedBlocks.Keys;
    var fModifierV2, fFirstRun, hashBest := false, true, 0;
    fSelected, selected := false, 0;
    var i: nat := 0;
    while i < |cands|
      invariant i <= |cands| && fFirstRun == (i == 0)
      invariant i > 0 ==> cands[0].hash in index && fModifierV2 == (index[cands[0].hash].height >= rules.upgradeHeight)
      invariant fSelected ==> Free(cands, taken, selected) && cands[selected].hash in index && i > 0
      invariant fSelected ==> hashBest == Hash(cands, index, selected, prev, rules)
      invariant !fSelected ==> forall j :: 0 <= j < i ==> !Free(cands, taken, j)
      invariant good && fSelected ==> Scanned(cands, index, taken, stop, prev, rules, i, first, selected)
    {
      if cands[i].hash !in index {
        return false, selected;
      }
      var pindex := index[cands[i].hash];
      if fSelected && pindex.time > stop {
        break;
      }
      if fFirstRun {
        fModifierV2 := pindex.height >= rules.upgradeHeight;
        fFirstRun := false;
      }
      if pindex.hash !in mapSelectedBlocks {
        var hashSelection := SelectionHash(pindex, fModifierV2, prev, rules);
        if fSelected && hashSelection < hashBest {
          hashBest := hashSelection;
          selected := i;
        } else if !fSelected {
          fSelected := true;
          hashBest := hashSelection;
          selected := i;
          first := i;
        }
      }
      i := i + 1;
    }
  }

  ///////////////////////////////////////////////////////////////////////////////////////////////
  // Interval sections
  ///////////////////////////////////////////////////////////////////////////////////////////////

  function Section(nSection: nat): nat
    requires nSection < 64
  {
    MODIFIER_INTERVAL * 63 / (63 + (63 - nSection) * (MODIFIER_INTERVAL_RATIO - 1))
  }

  function Sections(n: nat): nat
    requires n <= 64
  {
    if n == 0 then 0 else Sections(n - 1) + Section(n - 1)
  }

  method GetStakeModifierSelectionInterval() returns (nSelectionInterval: nat)
    ensures nSelectionInterval == Sections(64)
  {
    nSelectionInterval := 0;
    for nSection := 0 to 64
      invariant nSelectionInterval == Sections(nSection)
    {
      nSelectionInterval := nSelectionInterval + Section(nSection);
    }
  }

  lemma {:induction false} SectionsGrow(m: nat, n: nat)
    requires m <= n <= 64
    ensures Sections(m) <= Sections(n)
    decreases n
  {
    if m < n {
      SectionsGrow(m, n - 1);
    }
  }

  /** The sections grow, from a third of the modifier interval to the whole of it. */
  lemma SectionsByRatio(m: nat, n: nat)
    requires m <= n < 64
    ensures Section(m) <= Section(n) && Section(63) == MODIFIER_INTERVAL && Section(0) * MODIFIER_INTERVAL_RATIO == MODIFIER_INTERVAL
  {
    var p, a, b := MODIFIER_INTERVAL * 63, 63 + (63 - m) * 2, 63 + (63 - n) * 2;
    if p / b < p / a {
      MulMono(p / b + 1, p / a, b, a);
    }
  }

  /** Where the selection interval starts so that it ends at the last multiple of the modifier interval. */
  function Start(time: nat): int {
    time / MODIFIER_INTERVAL * MODIFIER_INTERVAL - Sections(64)
  }

  /** No round looks past the aligned end of the interval, and the last round ends exactly there. */
  lemma StopsAligned(time: nat, round: nat)
    requires round < 64
    ensures Start(time) + Sections(round + 1) <= time / MODIFIER_INTERVAL * MODIFIER_INTERVAL <= time
    ensures round == 63 ==> Start(time) + Sections(round + 1) == time / MODIFIER_INTERVAL * MODIFIER_INTERVAL
  {
    hide Sections;
    SectionsGrow(round + 1, 64);
  }

  ///////////////////////////////////////////////////////////////////////////////////////////////
  // Candidates
  ///////////////////////////////////////////////////////////////////////////////////////////////

  predicate InOrder(a: Candidate, b: Candidate) {
    a.time < b.time || (a.time == b.time && a.hash <= b.hash)
  }

  /** The blocks back from the tip until the first one before the interval, tip first. */
  function Window(chain: seq<Block>, start: int): seq<Candidate> {
    if chain == [] || chain[|chain| - 1].time < start then []
    else
      var b := chain[|chain| - 1];
      [Candidate(b.time, b.hash)] + Window(chain[..|chain| - 1], start)
  }

  /** A chain of indexed blocks, each at its height. */
  ghost predicate IsChain(chain: seq<Block>, index: Index) {
    && FiledByHash(index)
    && forall i :: 0 <= i < |chain| ==>
         chain[i].height == i && chain[i].hash in index && index[chain[i].hash] == chain[i]
  }

  ghost predicate AllDistinct(cands: seq<Candidate>) {
    forall i, j :: 0 <= i < j < |cands| ==> cands[i].hash != cands[j].hash
  }

  lemma {:induction false} WindowIs(chain: seq<Block>, index: Index, start: int)
    requires IsChain(chain, index)
    ensures |Window(chain, start)| <= |chain|
    ensures forall i :: 0 <= i < |Window(chain, start)| ==>
      var b := chain[|chain| - 1 - i]; Window(chain, start)[i] == Candidate(b.time, b.hash) && b.time >= start
    ensures |Window(chain, start)| < |chain| ==> chain[|chain| - 1 - |Window(chain, start)|].time < start
    decreases chain
  {
    if chain != [] && chain[|chain| - 1].time >= start {
      var front := chain[..|chain| - 1];
      WindowIs(front, index, start);
      var rest := Window(front, start);
      forall i | 0 <= i < |rest| + 1
        ensures var b := chain[|chain| - 1 - i]; Window(chain, start)[i] == Candidate(b.time, b.hash) && b.time >= start
      {
        assert i > 0 ==> Window(chain, start)[i] == rest[i - 1] && front[|front| - 1 - (i - 1)] == chain[|chain| - 1 - i];
      }
    }
  }

  lemma WindowIndexed(chain: seq<Block>, index: Index, start: int)
    requires IsChain(chain, index)
    ensures Indexed(Window(chain, start), index) && AllDistinct(Window(chain, start))
  {
    WindowIs(chain, index, start);
    var w := Window(chain, start);
    forall i, j | 0 <= i < j < |w| ensures w[i].hash != w[j].hash {
      assert chain[|chain| - 1 - i].height != chain[|chain| - 1 - j].height;
    }
  }

  /** Sorting keeps the candidates indexed and distinct. */
  lemma SortedIndexed(w: seq<Candidate>, index: Index)
    requires Indexed(w, index) && AllDistinct(w)
    ensures var s := Sort(w, InOrder); Indexed(s, index) && AllDistinct(s) && ByTime(s) && |s| == |w|
  {
    SortIs(w, InOrder);
    var s := Sort(w, InOrder);
    hide Sort;
    DistinctKept(w, s);
    forall i | 0 <= i < |s| ensures s[i].hash in index && index[s[i].hash].time == s[i].time {
      var j := Occurs(s, w, i);
    }
    forall i, j | 0 <= i < j < |s| ensures s[i].time <= s[j].time && s[i].hash != s[j].hash {
      assert InOrder(s[i], s[j]) && s[i] != s[j];
      assert index[s[i].hash].time == s[i].time && index[s[j].hash].time == s[j].time;
    }
  }

  function Reversed(s: seq<Candidate>): (r: seq<Candidate>)
    ensures |r| == |s| && forall i :: 0 <= i < |s| ==> r[i] == s[|s| - 1 - i]
  {
    if s == [] then [] else Reversed(s[1..]) + [s[0]]
  }

  /** No block from this one to the tip lies before the interval. */
  ghost predicate InWindow(chain: seq<Block>, start: int, i: int) {
    0 <= i < |chain| && forall j :: i <= j < |chain| ==> chain[j].time >= start
  }

  predicate Precedes(a: Candidate, b: Candidate) {
    a.time < b.time || (a.time == b.time && a.hash < b.hash)
  }

  /** The blocks of the window once each, by time and then by hash, and nothing else. */
  ghost predicate AreCandidates(chain: seq<Block>, start: int, cands: seq<Candidate>) {
    && (forall i, j :: 0 <= i < j < |cands| ==> Precedes(cands[i], cands[j]))
    && (forall i :: 0 <= i < |chain| ==>
          (Candidate(chain[i].time, chain[i].hash) in cands <==> InWindow(chain, start, i)))
    && (forall c :: c in cands ==> exists i :: InWindow(chain, start, i) && c == Candidate(chain[i].time, chain[i].hash))
  }

  lemma WindowHas(chain: seq<Block>, index: Index, start: int, i: nat)
    requires IsChain(chain, index) && i < |chain|
    ensures InWindow(chain, start, i) <==> i >= |chain| - |Window(chain, start)|
    ensures InWindow(chain, start, i) <==> Candidate(chain[i].time, chain[i].hash) in Window(chain, start)
  {
    var w := Window(chain, start);
    WindowIs(chain, index, start);
    hide Window;
    if i >= |chain| - |w| {
      forall j | i <= j < |chain| ensures chain[j].time >= start {
        assert w[|chain| - 1 - j] == Candidate(chain[j].time, chain[j].hash);
      }
    } else {
      forall k | 0 <= k < |w| ensures w[k].hash != chain[i].hash {
        assert chain[|chain| - 1 - k].height != chain[i].height;
      }
    }
  }

  lemma CandidatesAre(chain: seq<Block>, index: Index, start: int)
    requires IsChain(chain, index)
    ensures AreCandidates(chain, start, Candidates(chain, start))
  {
    var w, cands := Window(chain, start), Candidates(chain, start);
    CandidatesOf(chain, index, start);
    WindowIs(chain, index, start);
    hide Window, Candidates, IsChain, InWindow;
    forall i | 0 <= i < |chain| ensures Candidate(chain[i].time, chain[i].hash) in cands <==> InWindow(chain, start, i) {
      WindowHas(chain, index, start, i);
    }
    forall c | c in cands
      ensures exists i :: InWindow(chain, start, i) && c == Candidate(chain[i].time, chain[i].hash)
    {
      var k :| 0 <= k < |w| && w[k] == c;
      WindowHas(chain, index, start, |chain| - 1 - k);
    }
  }

  lemma CandidatesOf(chain: seq<Block>, index: Index, start: int)
    requires IsChain(chain, index)
    ensures var cands := Candidates(chain, start);
      && (forall c :: c in cands <==> c in Window(chain, start))
      && forall i, j :: 0 <= i < j < |cands| ==> Precedes(cands[i], cands[j])
  {
    var w, cands := Window(chain, start), Candidates(chain, start);
    CandidatesGood(chain, index, start);
    SortIs(Reversed(w), InOrder);
    ReversedHas(w);
    hide Window, Sort, Reversed, IsChain;
    assert forall c :: c in cands <==> c in multiset(cands);
    forall i, j | 0 <= i < j < |cands| ensures Precedes(cands[i], cands[j]) {
      assert InOrder(cands[i], cands[j]) && cands[i].hash != cands[j].hash;
    }
  }

  lemma {:induction false} ReversedHas(w: seq<Candidate>)
    ensures multiset(Reversed(w)) == multiset(w) && forall c :: c in multiset(Reversed(w)) <==> c in w
    decreases w
  {
    if w != [] {
      ReversedHas(w[1..]);
      assert w == [w[0]] + w[1..];
    }
  }

  lemma TipIsCandidate(chain: seq<Block>, start: int, cands: seq<Candidate>)
    requires AreCandidates(chain, start, cands) && chain != [] && chain[|chain| - 1].time >= start
    ensures cands != []
  {
    assert InWindow(chain, start, |chain| - 1);
  }

  /** There is one such sequence. */
  lemma CandidatesUnique(chain: seq<Block>, start: int, a: seq<Candidate>, b: seq<Candidate>)
    requires AreCandidates(chain, start, a) && AreCandidates(chain, start, b)
    ensures a == b
  {
    forall c ensures c in a <==> c in b {
      if c in a {
        var i :| InWindow(chain, start, i) && c == Candidate(chain[i].time, chain[i].hash);
      }
      if c in b {
        var i :| InWindow(chain, start, i) && c == Candidate(chain[i].time, chain[i].hash);
      }
    }
    hide InWindow;
    SameSorted(a, b);
  }

  lemma HeadIn(b: seq<Candidate>)
    ensures b != [] ==> b[0] in b
  {}

  lemma {:induction false} SameSorted(a: seq<Candidate>, b: seq<Candidate>)
    requires forall i, j :: 0 <= i < j < |a| ==> Precedes(a[i], a[j])
    requires forall i, j :: 0 <= i < j < |b| ==> Precedes(b[i], b[j])
    requires forall c :: c in a <==> c in b
    ensures a == b
    decreases a
  {
    HeadIn(b);
    if a != [] {
      assert a[0] in b && b[0] in a;
      assert a[0] == b[0];
      forall c ensures c in a[1..] <==> c in b[1..] {
        assert c in a[1..] <==> c in a && c != a[0];
        assert c in b[1..] <==> c in b && c != b[0];
      }
      SameSorted(a[1..], b[1..]);
    }
  }

  /** The candidates of a new modifier, sorted. */
  function Candidates(chain: seq<Block>, start: int): seq<Candidate> {
    Sort(Reversed(Window(chain, start)), InOrder)
  }

  lemma {:induction false} CandidatesGood(chain: seq<Block>, index: Index, start: int)
    requires IsChain(chain, index)
    ensures var cands := Candidates(chain, start);
      Indexed(cands, index) && AllDistinct(cands) && ByTime(cands) && |cands| == |Window(chain, start)|
  {
    hide Window, Sort;
    WindowIndexed(chain, index, start);
    SortedIndexed(Reversed(Window(chain, start)), index);
  }

  ///////////////////////////////////////////////////////////////////////////////////////////////
  // Rounds
  ///////////////////////////////////////////////////////////////////////////////////////////////

  ghost function TakenBy(cands: seq<Candidate>, picks: seq<nat>): set<nat>
    requires forall r :: 0 <= r < |picks| ==> picks[r] < |cands|
  {
    if picks == [] then {} else TakenBy(cands, picks[..|picks| - 1]) + {cands[picks[|picks| - 1]].hash}
  }

  /** Each round takes the right choice among what the rounds before it left. */
  ghost predicate Rounds(cands: seq<Candidate>, index: Index, start: int, prev: nat, rules: Rules, picks: seq<nat>) {
    && Indexed(cands, index) && |picks| <= 64
    && (forall r :: 0 <= r < |picks| ==> picks[r] < |cands|)
    && (forall r :: 0 <= r < |picks| ==> RoundIs(cands, index, start, prev, rules, picks, r))
  }

  ghost predicate RoundIs(cands: seq<Candidate>, index: Index, start: int, prev: nat, rules: Rules, picks: seq<nat>, r: nat)
    requires Indexed(cands, index) && r < |picks| <= 64 && forall i :: 0 <= i < |picks| ==> picks[i] < |cands|
  {
    IsPick(cands, index, TakenBy(cands, picks[..r]), start + Sections(r + 1), prev, rules, picks[r])
  }

  lemma {:induction false} TakenIs(cands: seq<Candidate>, picks: seq<nat>, i: nat)
    requires (forall r :: 0 <= r < |picks| ==> picks[r] < |cands|) && i < |picks|
    ensures cands[picks[i]].hash in TakenBy(cands, picks)
    decreases picks
  {
    if i < |picks| - 1 {
      TakenIs(cands, picks[..|picks| - 1], i);
    }
  }

  lemma {:induction false} TakenSize(cands: seq<Candidate>, picks: seq<nat>)
    requires forall r :: 0 <= r < |picks| ==> picks[r] < |cands|
    ensures |TakenBy(cands, picks)| <= |picks|
    decreases picks
  {
    if picks != [] {
      TakenSize(cands, picks[..|picks| - 1]);
    }
  }

  /** The blocks picked are pairwise distinct. */
  lemma RoundsDistinct(cands: seq<Candidate>, index: Index, start: int, prev: nat, rules: Rules, picks: seq<nat>, i: nat, j: nat)
    requires Rounds(cands, index, start, prev, rules, picks) && i < j < |picks|
    ensures cands[picks[i]].hash != cands[picks[j]].hash
  {
    assert RoundIs(cands, index, start, prev, rules, picks, j);
    TakenIs(cands, picks[..j], i);
  }

  /** The picks are determined by the candidates, the previous modifier and the rules. */
  lemma {:induction false} RoundsUnique(cands: seq<Candidate>, index: Index, start: int, prev: nat, rules: Rules,
                                        p: seq<nat>, q: seq<nat>)
    requires Rounds(cands, index, start, prev, rules, p) && Rounds(cands, index, start, prev, rules, q) && |p| == |q|
    ensures p == q
    decreases |p|
  {
    if p != [] {
      var n := |p| - 1;
      FewerRounds(cands, index, start, prev, rules, p);
      FewerRounds(cands, index, start, prev, rules, q);
      RoundsUnique(cands, index, start, prev, rules, p[..n], q[..n]);
      assert RoundIs(cands, index, start, prev, rules, p, n) && RoundIs(cands, index, start, prev, rules, q, n);
      PickUnique(cands, index, TakenBy(cands, p[..n]), start + Sections(n + 1), prev, rules, p[n], q[n]);
      assert p == p[..n] + [p[n]] && q == q[..n] + [q[n]];
    }
  }

  lemma FewerRounds(cands: seq<Candidate>, index: Index, start: int, prev: nat, rules: Rules, picks: seq<nat>)
    requires Rounds(cands, index, start, prev, rules, picks) && picks != []
    ensures Rounds(cands, index, start, prev, rules, picks[..|picks| - 1])
  {
    var front := picks[..|picks| - 1];
    forall r | 0 <= r < |front| ensures RoundIs(cands, index, start, prev, rules, front, r) {
      assert RoundIs(cands, index, start, prev, rules, picks, r);
      assert front[..r] == picks[..r];
    }
  }

  lemma OneMoreRound(cands: seq<Candidate>, index: Index, start: int, prev: nat, rules: Rules, picks: seq<nat>, p: nat)
    requires Rounds(cands, index, start, prev, rules, picks) && |picks| < 64
    requires IsPick(cands, index, TakenBy(cands, picks), start + Sections(|picks| + 1), prev, rules, p)
    ensures Rounds(cands, index, start, prev, rules, picks + [p])
    ensures TakenBy(cands, picks + [p]) == TakenBy(cands, picks) + {cands[p].hash}
  {
    hide IsPick, Sections, TakenBy, RoundIs;
    var more := picks + [p];
    assert p < |cands| by { PickInRange(cands, index, TakenBy(cands, picks), start + Sections(|picks| + 1), prev, rules, p); }
    forall r | 0 <= r < |more| ensures RoundIs(cands, index, start, prev, rules, more, r) {
      if r < |picks| {
        RoundStays(cands, index, start, prev, rules, picks, p, r);
      } else {
        LastRoundIs(cands, index, start, prev, rules, picks, p);
      }
    }
    OneMoreTaken(cands, picks, p);
  }

  lemma RoundStays(cands: seq<Candidate>, index: Index, start: int, prev: nat, rules: Rules, picks: seq<nat>, p: nat, r: nat)
    requires Indexed(cands, index) && r < |picks| < 64 && p < |cands|
    requires forall i :: 0 <= i < |picks| ==> picks[i] < |cands|
    requires RoundIs(cands, index, start, prev, rules, picks, r)
    ensures RoundIs(cands, index, start, prev, rules, picks + [p], r)
  {
    hide IsPick, Sections, TakenBy;
    assert (picks + [p])[..r] == picks[..r];
  }

  lemma LastRoundIs(cands: seq<Candidate>, index: Index, start: int, prev: nat, rules: Rules, picks: seq<nat>, p: nat)
    requires Indexed(cands, index) && |picks| < 64 && p < |cands|
    requires forall i :: 0 <= i < |picks| ==> picks[i] < |cands|
    requires IsPick(cands, index, TakenBy(cands, picks), start + Sections(|picks| + 1), prev, rules, p)
    ensures RoundIs(cands, index, start, prev, rules, picks + [p], |picks|)
  {
    hide IsPick, Sections, TakenBy;
    assert (picks + [p])[..|picks|] == picks;
  }

  lemma OneMoreTaken(cands: seq<Candidate>, picks: seq<nat>, p: nat)
    requires p < |cands| && forall i :: 0 <= i < |picks| ==> picks[i] < |cands|
    ensures TakenBy(cands, picks + [p]) == TakenBy(cands, picks) + {cands[p].hash}
  {}

  lemma PickInRange(cands: seq<Candidate>, index: Index, taken: set<nat>, stop: int, prev: nat, rules: Rules, p: nat)
    requires Indexed(cands, index) && IsPick(cands, index, taken, stop, prev, rules, p)
    ensures p < |cands| && cands[p].hash !in taken
  {}

  ghost function Hashes(cands: seq<Candidate>): set<nat> {
    if cands == [] then {} else {cands[0].hash} + Hashes(cands[1..])
  }

  lemma {:induction false} HashesAre(cands: seq<Candidate>, h: nat)
    ensures h in Hashes(cands) <==> exists i :: 0 <= i < |cands| && cands[i].hash == h
    decreases cands
  {
    if cands != [] {
      HashesAre(cands[1..], h);
      if i :| 0 <= i < |cands| && cands[i].hash == h {
        assert i > 0 ==> cands[1..][i - 1].hash == h;
      }
    }
  }

  lemma {:induction false} HashesSize(cands: seq<Candidate>)
    requires AllDistinct(cands)
    ensures |Hashes(cands)| == |cands|
    decreases cands
  {
    if cands != [] {
      HashesSize(cands[1..]);
      HashesAre(cands[1..], cands[0].hash);
    }
  }

  /** While fewer rounds than candidates have been played, some candidate is left. */
  lemma SomeLeft(cands: seq<Candidate>, picks: seq<nat>)
    requires AllDistinct(cands) && |picks| < |cands| && forall r :: 0 <= r < |picks| ==> picks[r] < |cands|
    ensures exists j :: 0 <= j < |cands| && Free(cands, TakenBy(cands, picks), j)
  {
    var taken := TakenBy(cands, picks);
    TakenSize(cands, picks);
    HashesSize(cands);
    if forall j :: 0 <= j < |cands| ==> !Free(cands, taken, j) {
      forall h | h in Hashes(cands) ensures h in taken {
        HashesAre(cands, h);
        var j :| 0 <= j < |cands| && cands[j].hash == h;
        assert !Free(cands, taken, j);
      }
      SubsetSize(Hashes(cands), taken);
      assert false;
    }
  }

  /** Bit r of the modifier is the entropy bit of the block picked in round r. */
  ghost predicate EntropyBits(cands: seq<Candidate>, index: Index, picks: seq<nat>, modifier: nat)
    requires Indexed(cands, index)
  {
    && modifier < Pow(2, |picks|)
    && forall r :: 0 <= r < |picks| ==>
         Pow(2, r) > 0 && picks[r] < |cands| && (Bit(modifier, Pow(2, r)) <==> index[cands[picks[r]].hash].entropyBit)
  }

  lemma AddBit(modifier: nat, n: nat, bit: bool, r: nat)
    requires modifier < Pow(2, n) && r <= n
    ensures var next := modifier + if bit then Pow(2, n) else 0;
      next < Pow(2, n + 1) && Pow(2, r) > 0 && (Bit(next, Pow(2, r)) <==> if r == n then bit else Bit(modifier, Pow(2, r)))
  {
    hide Bit;
    PowPositive(2, r);
    if r < n {
      HighBit(modifier, r, n);
    } else {
      TopBit(modifier, Pow(2, n));
    }
  }

  /** Or-ing the next entropy bit into its place. */
  lemma OneMoreBit(cands: seq<Candidate>, index: Index, picks: seq<nat>, modifier: nat, p: nat)
    requires Indexed(cands, index) && EntropyBits(cands, index, picks, modifier) && p < |cands|
    ensures cands[p].hash in index
    ensures EntropyBits(cands, index, picks + [p], modifier + if index[cands[p].hash].entropyBit then Pow(2, |picks|) else 0)
  {
    hide Bit, Pow;
    var n := |picks|;
    var bit := index[cands[p].hash].entropyBit;
    AddBit(modifier, n, bit, n);
    forall r | 0 <= r <= n
      ensures Pow(2, r) > 0
      ensures Bit(modifier + if bit then Pow(2, n) else 0, Pow(2, r)) <==> if r == n then bit else Bit(modifier, Pow(2, r))
    {
      AddBit(modifier, n, bit, r);
    }
  }

  ///////////////////////////////////////////////////////////////////////////////////////////////
  // The code
  ///////////////////////////////////////////////////////////////////////////////////////////////

  /** The last block that generated a modifier; none means that not even the genesis block did. */
  method GetLastStakeModifier(chain: seq<Block>) returns (at: Option<nat>)
    requires chain != []
    ensures at.None? <==> forall i :: 0 <= i < |chain| ==> !chain[i].generated
    ensures at.Some? ==> at.value < |chain| && chain[at.value].generated &&
                         forall i :: at.value < i < |chain| ==> !chain[i].generated
  {
    var pindex: nat := |chain| - 1;
    while pindex > 0 && !chain[pindex].generated
      invariant pindex < |chain| && forall i :: pindex < i < |chain| ==> !chain[i].generated
    {
      pindex := pindex - 1;
    }
    return if chain[pindex].generated then Some(pindex) else None;
  }

  method CollectCandidates(chain: seq<Block>, ghost index: Index, start: int) returns (vSortedByTimestamp: seq<Candidate>)
    requires IsChain(chain, index)
    ensures AreCandidates(chain, start, vSortedByTimestamp)
    ensures Indexed(vSortedByTimestamp, index) && AllDistinct(vSortedByTimestamp) && ByTime(vSortedByTimestamp)
  {
    hide AreCandidates, IsChain, Indexed, AllDistinct, ByTime, Sort, Reversed;
    var unsorted: seq<Candidate> := [];
    var n: nat := |chain|;
    assert chain[..n] == chain;
    while n > 0 && chain[n - 1].time >= start
      invariant n <= |chain| && unsorted + Window(chain[..n], start) == Window(chain, start)
    {
      assert chain[..n][..n - 1] == chain[..n - 1];
      unsorted := unsorted + [Candidate(chain[n - 1].time, chain[n - 1].hash)];
      n := n - 1;
    }
    assert unsorted == Window(chain, start);
    vSortedByTimestamp := Sort(Reversed(unsorted), InOrder);
    CandidatesAre(chain, index, start);
    CandidatesGood(chain, index, start);
  }

  /** The loop of up to 64 rounds; none of them fails. */
  method SelectRounds(cands: seq<Candidate>, index: Index, start: int, prev: nat, rules: Rules)
    returns (ok: bool, picks: seq<nat>, modifier: nat)
    requires FiledByHash(index) && Indexed(cands, index) && ByTime(cands) && AllDistinct(cands)
    ensures ok && |picks| == (if |cands| < 64 then |cands| else 64)
    ensures Rounds(cands, index, start, prev, rules, picks) && EntropyBits(cands, index, picks, modifier)
  {
    hide IsPick, TakenBy, EntropyBits, Bit;
    var mapSelectedBlocks: map<nat, Block> := map[];
    var stop := start;
    picks, modifier := [], 0;
    NothingYet(cands, index, start, prev, rules);
    var nRound: nat := 0;
    while nRound < if |cands| < 64 then |cands| else 64
      invariant nRound == |picks| <= (if |cands| < 64 then |cands| else 64)
      invariant stop == start + Sections(nRound) && forall r :: 0 <= r < nRound ==> picks[r] < |cands|
      invariant Rounds(cands, index, start, prev, rules, picks) && EntropyBits(cands, index, picks, modifier)
      invariant mapSelectedBlocks.Keys == TakenBy(cands, picks)
    {
      hide Rounds, Section;
      stop := stop + Section(nRound);
      var selected, p := SelectBlockFromCandidates(cands, index, mapSelectedBlocks, stop, prev, rules);
      SomeLeft(cands, picks);
      if !selected {
        return false, picks, modifier;
      }
      PickInRange(cands, index, mapSelectedBlocks.Keys, stop, prev, rules, p);
      OneMoreRound(cands, index, start, prev, rules, picks, p);
      OneMoreBit(cands, index, picks, modifier, p);
      var pindex := index[cands[p].hash];
      // the bit is not set yet, so adding it is or-ing it
      modifier := modifier + if pindex.entropyBit then Pow(2, nRound) else 0;
      mapSelectedBlocks := mapSelectedBlocks[pindex.hash := pindex];
      picks := picks + [p];
      nRound := nRound + 1;
    }
    ok := true;
  }

  lemma NothingYet(cands: seq<Candidate>, index: Index, start: int, prev: nat, rules: Rules)
    requires Indexed(cands, index)
    ensures Rounds(cands, index, start, prev, rules, []) && EntropyBits(cands, index, [], 0) && TakenBy(cands, []) == {}
  {}

  /** What a generated modifier is made of. */
  ghost predicate Generates(chain: seq<Block>, index: Index, rules: Rules, prev: nat, cands: seq<Candidate>,
                            picks: seq<nat>, modifier: nat)
    requires IsChain(chain, index) && chain != []
  {
    var start := Start(chain[|chain| - 1].time);
    && AreCandidates(chain, start, cands)
    && Rounds(cands, index, start, prev, rules, picks) && EntropyBits(cands, index, picks, modifier)
    && |picks| == (if |cands| < 64 then |cands| else 64) && |picks| > 0
  }

  /**
   The modifier after the last block of a chain: 0 for the genesis block, a fixed word for the first
   block, the last one again while the modifier interval lasts, and otherwise a new one from up to
   64 rounds.  It fails only when no block of the chain, not even the genesis block, generated one.
   */
  method ComputeNextStakeModifier(chain: seq<Block>, index: Index, rules: Rules, firstModifier: nat)
    returns (ok: bool, nStakeModifier: nat, fGenerated: bool, cands: seq<Candidate>, picks: seq<nat>)
    requires IsChain(chain, index)
    ensures |chain| <= 1 ==> ok && fGenerated && nStakeModifier == if chain == [] then 0 else firstModifier
    ensures |chain| > 1 ==> (ok <==> exists i :: 0 <= i < |chain| && chain[i].generated)
    ensures |chain| > 1 && ok ==> exists last :: (
      && 0 <= last < |chain| && chain[last].generated && (forall i :: last < i < |chain| ==> !chain[i].generated)
      && fGenerated == (chain[last].time / MODIFIER_INTERVAL < chain[|chain| - 1].time / MODIFIER_INTERVAL)
      && if fGenerated then Generates(chain, index, rules, chain[last].modifier, cands, picks, nStakeModifier)
         else nStakeModifier == chain[last].modifier)
  {
    hide Rounds, EntropyBits, Sections, AreCandidates;
    cands, picks := [], [];
    if chain == [] {
      return true, 0, true, cands, picks;
    }
    var prev := chain[|chain| - 1];
    if prev.height == 0 {
      return true, firstModifier, true, cands, picks;
    }
    var at := GetLastStakeModifier(chain);
    if at.None? {
      return false, 0, false, cands, picks;
    }
    var last := at.value;
    if chain[last].time / MODIFIER_INTERVAL >= prev.time / MODIFIER_INTERVAL {
      return true, chain[last].modifier, false, cands, picks;
    }
    var nSelectionInterval := GetStakeModifierSelectionInterval();
    var start := prev.time / MODIFIER_INTERVAL * MODIFIER_INTERVAL - nSelectionInterval;
    StopsAligned(prev.time, 63);
    cands := CollectCandidates(chain, index, start);
    TipIsCandidate(chain, start, cands);
    hide IsChain;
    ok, picks, nStakeModifier := SelectRounds(cands, index, start, chain[last].modifier, rules);
    fGenerated := true;
    assert Generates(chain, index, rules, chain[last].modifier, cands, picks, nStakeModifier);
  }

  /** The block at a height generated a modifier at least a selection interval after the coin's block. */
  ghost predicate LateEnough(active: seq<Block>, from: Block, i: int) {
    from.height < i < |active| && active[i].generated && active[i].time >= from.time + Sections(64)
  }

  ghost predicate NoneLate(active: seq<Block>, from: Block, n: int) {
    forall i :: 0 <= i < n ==> !LateEnough(active, from, i)
  }

  lemma NotLate(active: seq<Block>, from: Block, n: int)
    requires NoneLate(active, from, n) && !LateEnough(active, from, n)
    ensures NoneLate(active, from, n + 1)
  {}

  lemma NoneLateBefore(active: seq<Block>, from: Block)
    ensures NoneLate(active, from, from.height)
  {}

  lemma NoneLateAtEnd(active: seq<Block>, from: Block, n: int)
    requires NoneLate(active, from, n) && n >= |active|
    ensures forall i :: !LateEnough(active, from, i)
  {}

  lemma NoneLateAre(active: seq<Block>, from: Block, n: int)
    requires NoneLate(active, from, n)
    ensures forall i :: 0 <= i < n ==> !LateEnough(active, from, i)
  {}

  /**
   The modifier for a kernel: the one generated by the first block after the coin's block that is
   at least a selection interval younger; fails while the active chain has no such block.
   */
  method GetKernelStakeModifier(hashBlockFrom: nat, index: Index, active: seq<Block>)
    returns (ok: bool, modifier: nat, height: nat, time: nat)
    requires forall i :: 0 <= i < |active| ==> active[i].height == i
    ensures ok <==> hashBlockFrom in index && exists i :: LateEnough(active, index[hashBlockFrom], i)
    ensures ok ==> LateEnough(active, index[hashBlockFrom], height)
    ensures ok ==> height > index[hashBlockFrom].height && active[height].generated
    ensures ok ==> active[height].time >= index[hashBlockFrom].time + Sections(64)
    ensures ok ==> time == active[height].time && modifier == active[height].modifier
    ensures ok ==> forall i :: 0 <= i < height ==> !LateEnough(active, index[hashBlockFrom], i)
  {
    if hashBlockFrom !in index {
      return false, 0, 0, 0;
    }
    var from := index[hashBlockFrom];
    var interval := GetStakeModifierSelectionInterval();
    IntervalPositive();
    hide Sections, NoneLate;
    NoneLateBefore(active, from);
    modifier, height, time := 0, from.height, from.time;
    var pindex, next: nat := from, from.height + 1;
    while time < from.time + interval
      invariant next > from.height && (next == from.height + 1 || next <= |active|)
      invariant NoneLate(active, from, next - 1)
      invariant next == from.height + 1 ==> time == from.time
      invariant next > from.height + 1 ==> pindex == active[next - 1]
      invariant next > from.height + 1 && pindex.generated ==> height == next - 1 && time == pindex.time
      invariant next > from.height + 1 && !pindex.generated ==> time < from.time + interval
      decreases |active| - next
    {
      NotLate(active, from, next - 1);
      if next >= |active| {
        NoneLateAtEnd(active, from, next);
        return false, 0, height, time;
      }
      pindex := active[next];
      next := pindex.height + 1;
      if pindex.generated {
        height := pindex.height;
        time := pindex.time;
      }
    }
    assert LateEnough(active, index[hashBlockFrom], height);
    NoneLateAre(active, from, next - 1);
    modifier := pindex.modifier;
    ok := true;
  }

  lemma IntervalPositive()
    ensures Sections(64) > 0
  {
    SectionsGrow(1, 64);
    assert Sections(1) == Sections(0) + Section(0);
  }
}
