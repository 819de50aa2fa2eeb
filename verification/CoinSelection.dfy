/** The coin selection of denomination_functions.cpp, over the arithmetic of Denominations.dfy. */
module CoinSelection {
  import opened Collections
  import opened Denominations

  /** A mint of a denomination, by rank; any other rank stands for ZQ_ERROR, which is worth nothing. */
  datatype Mint = Mint(denom: int, isUsed: bool)

  function Available(mints: seq<Mint>, d: int): nat {
    if mints == [] then 0
    else (if !mints[0].isUsed && mints[0].denom == d then 1 else 0) + Available(mints[1..], d)
  }

  /** How many unused mints there are of each denomination. */
  function Supply(mints: seq<Mint>): Tally {
    [Available(mints, 0), Available(mints, 1), Available(mints, 2), Available(mints, 3),
     Available(mints, 4), Available(mints, 5), Available(mints, 6), Available(mints, 7)]
  }

  lemma SupplyAt(mints: seq<Mint>, d: nat)
    requires d < DENOMS
    ensures Supply(mints)[d] == Available(mints, d)
  {}

  ///////////////////////////////////////////////////////////////////////////////////////////////
  // The greedy loops
  ///////////////////////////////////////////////////////////////////////////////////////////////

  /** The inner loop: takes coins of one denomination while there are any and they fit. */
  method Grab(mode: Mode, limit: nat, value: int, v: nat) returns (k: nat, rest: int)
    ensures k == Fit(mode, limit, value, v) && rest == value - k * v
  {
    k, rest := 0, value;
    while mode.Takes(rest, v) && k < limit
      invariant k <= limit && rest == value - k * v
      invariant Fit(mode, limit, value, v) == k + Fit(mode, limit - k, rest, v)
      decreases limit - k
    {
      k := k + 1;
      rest := rest - v;
    }
  }

  /** The outer loop: all denominations below rank `n`, largest first. */
  method SweepDown(mode: Mode, held: Tally, value: int, n: nat) returns (used: Tally, rest: int)
    requires n <= DENOMS
    ensures used == Sweep(mode, held, value, n) && rest == value - Worth(used, n)
  {
    hide Amount, Sweep, Fit;
    used, rest := NONE, value;
    var i := n;
    while i > 0
      invariant 0 <= i <= n
      invariant forall j :: 0 <= j < DENOMS ==> used[j] == if i <= j < n then Sweep(mode, held, value, n)[j] else 0
      invariant forall j :: 0 <= j < i ==> Sweep(mode, held, value, n)[j] == Sweep(mode, held, rest, i)[j]
      invariant rest - Worth(Sweep(mode, held, rest, i), i) == value - Worth(Sweep(mode, held, value, n), n)
    {
      i := i - 1;
      SweepStep(mode, held, rest, i + 1);
      var k, r := Grab(mode, held[i], rest, Amount(i));
      used, rest := used[i := k], r;
    }
    SweepBounds(mode, held, value, n);
    assert used == Sweep(mode, held, value, n);
  }

  method GetSpendCoins(target: int, held: Tally) returns (used: Tally)
    ensures used == Sweep(Exact, held, target, DENOMS)
  {
    var rest;
    used, rest := SweepDown(Exact, held, target, DENOMS);
  }

  /** The inner loop of getChange: as many coins as fit, however many are held. */
  method GrabAll(value: int, v: nat, ghost plenty: nat) returns (k: nat, rest: int)
    requires v > 0 && plenty >= value
    ensures k == Fit(Exact, plenty, value, v) && rest == value - k * v
  {
    k, rest := 0, value;
    while rest >= v
      invariant rest == value - k * v && k <= plenty && (rest > 0 ==> rest <= plenty - k)
      invariant Fit(Exact, plenty, value, v) == k + Fit(Exact, plenty - k, rest, v)
      decreases rest
    {
      OneCoin(value, k, v);
      k := k + 1;
      rest := rest - v;
    }
  }

  method GetChange(target: int) returns (change: Tally)
    ensures change == Change(target)
  {
    hide Amount, Sweep, Fit;
    ghost var plenty := Plenty(target);
    change := NONE;
    var rest := target;
    var i := DENOMS;
    while i > 0
      invariant 0 <= i <= DENOMS && rest <= target
      invariant forall j :: 0 <= j < DENOMS ==> change[j] == if i <= j then Change(target)[j] else 0
      invariant forall j :: 0 <= j < i ==> Change(target)[j] == Sweep(Exact, plenty, rest, i)[j]
    {
      i := i - 1;
      SweepStep(Exact, plenty, rest, i + 1);
      var k, r := GrabAll(rest, Amount(i), plenty[i]);
      change, rest := change[i := k], r;
    }
    assert change == Change(target);
  }

  method GetNumberOfCoinsUsed(used: Tally) returns (n: nat)
    ensures n == Count(used, DENOMS)
  {
    n := 0;
    for i := 0 to DENOMS
      invariant n == Count(used, i)
    {
      n := n + used[i];
    }
  }

  /** The largest denomination held, or -1. */
  method GetMaxDenomHeld(held: Tally) returns (d: int)
    ensures -1 <= d < DENOMS && (d >= 0 ==> held[d] != 0) && forall j :: d < j < DENOMS ==> held[j] == 0
  {
    d := DENOMS - 1;
    while d >= 0 && held[d] == 0
      invariant -1 <= d < DENOMS && forall j :: d < j < DENOMS ==> held[j] == 0
    {
      d := d - 1;
    }
  }

  /** The largest denomination held below `from`, or -1. */
  method GetNextLowerDenomHeld(from: nat, held: Tally) returns (d: int)
    requires from < DENOMS
    ensures -1 <= d < from && (d >= 0 ==> held[d] != 0) && forall j :: d < j < from ==> held[j] == 0
  {
    d := from - 1;
    while d >= 0 && held[d] == 0
      invariant -1 <= d < from && forall j :: d < j < from ==> held[j] == 0
    {
      d := d - 1;
    }
  }

  ///////////////////////////////////////////////////////////////////////////////////////////////
  // Change
  ///////////////////////////////////////////////////////////////////////////////////////////////

  /** A payment from the coins held, and the number of coins that come back as change. */
  ghost predicate Pays(used: Tally, held: Tally, target: int, changeCount: nat) {
    && Within(used, held)
    && Worth(used, DENOMS) >= target
    && changeCount == Count(Change(Worth(used, DENOMS) - target), DENOMS)
  }

  /** After a strict sweep below rank `n`, no coin that is left over exceeds what is left to pay. */
  ghost predicate Stuck(held: Tally, target: int, n: nat)
    requires n <= DENOMS
  {
    var used := Sweep(Strict, held, target, n);
    var rest := target - Worth(used, n);
    rest > 0 && forall i :: 0 <= i < DENOMS && used[i] < held[i] ==> Amount(i) <= rest
  }

  /** Is a coin of rank `d` left over that is larger than the rest? */
  predicate Covers(held: Tally, used: Tally, rest: int, d: nat)
    requires d < DENOMS
  {
    used[d] < held[d] && Amount(d) > rest
  }

  /** One more coin, the smallest that covers the rest, or none if there is no such coin. */
  ghost predicate Covered(held: Tally, low: Tally, rest: int, attempt: Tally) {
    || (attempt == low && forall i :: 0 <= i < DENOMS ==> !Covers(held, low, rest, i))
    || exists d :: 0 <= d < DENOMS && Covers(held, low, rest, d) && attempt == low[d := low[d] + 1]
         && forall i :: 0 <= i < d ==> !Covers(held, low, rest, i)
  }

  /** minimizeChange's way back up: one coin, the smallest that covers what is left. */
  method CoverRest(held: Tally, used0: Tally, rest0: int) returns (used: Tally, rest: int)
    requires Within(used0, held)
    ensures Within(used, held)
    ensures Worth(used, DENOMS) + rest == Worth(used0, DENOMS) + rest0
    ensures rest > 0 ==> used == used0 && rest == rest0 && forall i :: 0 <= i < DENOMS && used[i] < held[i] ==> Amount(i) <= rest
    ensures rest0 >= 0 ==> Covered(held, used0, rest0, used)
  {
    hide Amount, Worth;
    used, rest := used0, rest0;
    var i := 0;
    while i < DENOMS
      invariant 0 <= i <= DENOMS && used == used0 && rest == rest0
      invariant forall j :: 0 <= j < i ==> !Covers(held, used0, rest0, j)
    {
      if Amount(i) > rest && used[i] < held[i] {
        OneMore(used, i, DENOMS);
        used := used[i := used[i] + 1];
        rest := rest - Amount(i);
        assert Covers(held, used0, rest0, i);
      }
      if rest < 0 {
        break;
      }
      i := i + 1;
    }
    forall j | rest > 0 && 0 <= j < DENOMS && used[j] < held[j] ensures Amount(j) <= rest {
      assert !Covers(held, used0, rest0, j);
    }
  }

  lemma {:induction false} OneMore(u: Tally, d: nat, n: nat)
    requires d < DENOMS && n <= DENOMS
    ensures Worth(u[d := u[d] + 1], n) == Worth(u, n) + if d < n then Amount(d) else 0
    ensures Count(u[d := u[d] + 1], n) == Count(u, n) + if d < n then 1 else 0
    decreases n
  {
    hide Amount;
    if n > 0 {
      OneMore(u, d, n - 1);
      MulSplit(u[n - 1], 1, Amount(n - 1));
    }
  }

  /** The coins of one tally beyond those of another. */
  function Beyond(a: Tally, b: Tally): Tally {
    seq(DENOMS, i requires 0 <= i < DENOMS => if a[i] > b[i] then a[i] - b[i] else 0)
  }

  /** Cancels the coins that would be both spent and received as change. */
  method RemoveOverlap(used0: Tally, change0: Tally) returns (used: Tally, change: Tally)
    ensures Within(used, used0)
    ensures Worth(used, DENOMS) - Worth(change, DENOMS) == Worth(used0, DENOMS) - Worth(change0, DENOMS)
    ensures forall i :: 0 <= i < DENOMS ==> used[i] == 0 || change[i] == 0
    ensures used == Beyond(used0, change0) && change == Beyond(change0, used0)
  {
    hide Amount;
    used, change := used0, change0;
    var i := 0;
    while i < DENOMS
      invariant 0 <= i <= DENOMS && Within(used, used0)
      invariant Worth(used, DENOMS) - Worth(change, DENOMS) == Worth(used0, DENOMS) - Worth(change0, DENOMS)
      invariant forall j :: 0 <= j < i ==> used[j] == 0 || change[j] == 0
      invariant forall j :: 0 <= j < DENOMS ==> used[j] + change0[j] == used0[j] + change[j]
      invariant forall j :: i <= j < DENOMS ==> used[j] == used0[j] && change[j] == change0[j]
    {
      while change[i] != 0 && used[i] != 0
        invariant Within(used, used0)
        invariant Worth(used, DENOMS) - Worth(change, DENOMS) == Worth(used0, DENOMS) - Worth(change0, DENOMS)
        invariant forall j :: 0 <= j < i ==> used[j] == 0 || change[j] == 0
        invariant forall j :: 0 <= j < DENOMS ==> used[j] + change0[j] == used0[j] + change[j]
        invariant forall j :: i < j < DENOMS ==> used[j] == used0[j] && change[j] == change0[j]
        decreases used[i]
      {
        var u, c := used[i := used[i] - 1], change[i := change[i] - 1];
        OneMore(u, i, DENOMS);
        OneMore(c, i, DENOMS);
        assert u[i := u[i] + 1] == used && c[i := c[i] + 1] == change;
        used, change := u, c;
      }
      i := i + 1;
    }
  }

  lemma {:induction false} WorthPlus(a: Tally, b: Tally, c: Tally, n: nat)
    requires n <= DENOMS && forall i :: 0 <= i < n ==> c[i] == a[i] + b[i]
    ensures Worth(c, n) == Worth(a, n) + Worth(b, n) && Count(c, n) == Count(a, n) + Count(b, n)
    decreases n
  {
    hide Amount;
    if n > 0 {
      WorthPlus(a, b, c, n - 1);
      MulSplit(a[n - 1], b[n - 1], Amount(n - 1));
    }
  }

  /** The coins of a tally that another one has too, and the others. */
  lemma CommonAndBeyond(a: Tally, b: Tally) returns (common: Tally)
    ensures Worth(a, DENOMS) == Worth(Beyond(a, b), DENOMS) + Worth(common, DENOMS)
    ensures Count(a, DENOMS) == Count(Beyond(a, b), DENOMS) + Count(common, DENOMS)
    ensures Worth(b, DENOMS) == Worth(Beyond(b, a), DENOMS) + Worth(common, DENOMS)
  {
    common := seq(DENOMS, i requires 0 <= i < DENOMS => if a[i] < b[i] then a[i] else b[i]);
    WorthPlus(Beyond(a, b), common, a, DENOMS);
    WorthPlus(Beyond(b, a), common, b, DENOMS);
  }

  /** The value that minimizeChange pays instead: the attempt without the coins that would come back as change. */
  function Alternative(attempt: Tally, target: int): nat {
    Worth(Beyond(attempt, Change(Worth(attempt, DENOMS) - target)), DENOMS)
  }

  /** What cancelling leaves of the change is the change that the cancelled payment gets. */
  lemma CancelledIsChange(used: Tally, target: int)
    requires Worth(used, DENOMS) >= target
    ensures var change := Change(Worth(used, DENOMS) - target);
      Change(Alternative(used, target) - target) == Beyond(change, used)
  {
    hide Amount, Worth, Count, Beyond, Sweep;
    var r := Worth(used, DENOMS) - target;
    var change := Change(r);
    var left, r' := Beyond(change, used), Worth(Beyond(used, change), DENOMS) - target;
    ChangeConserves(r);
    var common := CommonAndBeyond(change, used);
    ChangeConserves(r');
    var fewest := Change(r');
    var whole := Together(fewest, common);
    SmallestIsCoin();
    Amply(r);
    Amply(r');
    hide Plenty;
    SweepFewest(Plenty(r'), r', DENOMS, left);
    SweepFewest(Plenty(r), r, DENOMS, whole);
  }

  lemma Together(a: Tally, b: Tally) returns (c: Tally)
    ensures Worth(c, DENOMS) == Worth(a, DENOMS) + Worth(b, DENOMS) && Count(c, DENOMS) == Count(a, DENOMS) + Count(b, DENOMS)
  {
    c := seq(DENOMS, i requires 0 <= i < DENOMS => a[i] + b[i]);
    WorthPlus(a, b, c, DENOMS);
  }

  lemma Amply(r: int)
    ensures forall i :: 0 <= i < DENOMS ==> Plenty(r)[i] >= r
  {}

  lemma SmallestIsCoin()
    ensures Amount(0) == COIN
  {}

  /** The coins held that are worth it. */
  function Spending(held: Tally, attempt: Tally, target: int): Tally {
    Sweep(Exact, held, Alternative(attempt, target), DENOMS)
  }

  /** Less change than `changeCount` within the limit of spends. */
  ghost predicate Better(held: Tally, attempt: Tally, target: int, maxSpends: int, changeCount: nat) {
    && Count(Change(Alternative(attempt, target) - target), DENOMS) < changeCount
    && Count(Spending(held, attempt, target), DENOMS) <= maxSpends
  }

  /** What minimizeChange attempts with the coins below rank `n`. */
  ghost predicate IsAttempt(held: Tally, target: int, n: nat, attempt: Tally)
    requires n <= DENOMS
  {
    var low := Sweep(Strict, held, target, n);
    target >= 0 ==> Covered(held, low, target - Worth(low, n), attempt)
  }

  /**
   Tries to pay with coins of rank `next` and below plus at most one larger coin.  Accepts exactly
   if that gives less change than `changeCount` within the limit of spends; then the new coins pay.
   */
  method MinimizeChange(maxSpends: int, changeCount: nat, next: int, target: int, held: Tally, saved: Tally)
    returns (count: nat, used: Tally, ghost attempt: Tally)
    requires -1 <= next < DENOMS
    requires Stuck(held, target, next + 1) ==> changeCount == 0
    ensures count <= changeCount
    ensures if count < changeCount then Pays(used, held, target, count) && Count(used, DENOMS) <= maxSpends else used == saved
    ensures IsAttempt(held, target, next + 1, attempt)
    ensures count < changeCount <==> Better(held, attempt, target, maxSpends, changeCount)
    ensures count < changeCount ==> used == Spending(held, attempt, target) && Worth(used, DENOMS) == Alternative(attempt, target)
  {
    hide Sweep, Amount, Covered, Beyond;
    var rest;
    used, rest := SweepDown(Strict, held, target, next + 1);
    SweepBounds(Strict, held, target, next + 1);
    WorthAbove(used, next + 1, DENOMS);
    StrictLeaves(held, target, next + 1);
    used, rest := CoverRest(held, used, rest);
    attempt := used;

    var change := GetChange(Worth(used, DENOMS) - target);
    ChangeConserves(Worth(used, DENOMS) - target);
    used, change := RemoveOverlap(used, change);
    ghost var net := used;
    var amountUsed := Worth(used, DENOMS);
    assert rest <= 0 ==> amountUsed >= target;

    SweepBounds(Exact, held, amountUsed, DENOMS);
    SweepComplete(held, amountUsed, DENOMS, net);
    hide Worth, Count, Within, Stuck, IsAttempt, Better;
    assert amountUsed == Alternative(attempt, target);
    count, used := Settle(maxSpends, changeCount, target, held, saved, amountUsed, attempt);
  }

  /** The end of minimizeChange: the new coins if they are better, otherwise those it started with. */
  method Settle(maxSpends: int, changeCount: nat, target: int, held: Tally, saved: Tally, amountUsed: int, ghost attempt: Tally)
    returns (count: nat, used: Tally)
    requires amountUsed == Alternative(attempt, target)
    ensures Better(held, attempt, target, maxSpends, changeCount) ==>
      used == Spending(held, attempt, target) && Count(used, DENOMS) <= maxSpends
      && count == Count(Change(amountUsed - target), DENOMS) < changeCount
    ensures !Better(held, attempt, target, maxSpends, changeCount) ==> used == saved && count == changeCount
  {
    used := GetSpendCoins(amountUsed, held);
    var coinCount := GetNumberOfCoinsUsed(used);
    var change := GetChange(amountUsed - target);
    count := GetNumberOfCoinsUsed(change);
    if !(count < changeCount && coinCount <= maxSpends) {
      used := saved;
      count := changeCount;
    }
  }

  /** The strict sweep never pays more than the target. */
  lemma {:induction false} StrictLeaves(h: Tally, r: int, n: nat)
    requires n <= DENOMS
    ensures r >= 0 ==> r - Worth(Sweep(Strict, h, r, n), n) >= 0
    decreases n
  {
    hide Amount, Sweep;
    if n > 0 {
      var v := Amount(n - 1);
      var k: int := Fit(Strict, h[n - 1], r, v);
      FitBounds(Strict, h[n - 1], r, v);
      MulSplit(k - 1, 1, v);
      SweepStep(Strict, h, r, n);
      StrictLeaves(h, r - k * v, n - 1);
    }
  }

  lemma {:induction false} WorthAbove(u: Tally, m: nat, n: nat)
    requires m <= n <= DENOMS && forall i :: m <= i < n ==> u[i] == 0
    ensures Worth(u, n) == Worth(u, m) && Count(u, n) == Count(u, m)
    decreases n
  {
    if m < n {
      WorthAbove(u, m, n - 1);
    }
  }

  /** When the strict sweep gets stuck although the coins held suffice, the other sweep pays exactly. */
  lemma {:induction false} StuckPaysExactly(h: Tally, r: int, n: nat, rest: int)
    requires n <= DENOMS && r > 0 && Worth(h, n) >= r && rest == r - Worth(Sweep(Strict, h, r, n), n)
    requires forall i :: 0 <= i < n && Sweep(Strict, h, r, n)[i] < h[i] ==> Amount(i) <= rest
    ensures Worth(Sweep(Over, h, r, n), n) == r
    decreases n
  {
    hide Amount, Sweep, Fit;
    if n > 0 {
      var v := Amount(n - 1);
      var k, j := Fit(Strict, h[n - 1], r, v), Fit(Over, h[n - 1], r, v);
      assert Worth(h, n) == Worth(h, n - 1) + h[n - 1] * v;
      hide Worth;
      SweepStep(Strict, h, r, n);
      SweepStep(Over, h, r, n);
      StrictThenOver(h[n - 1], r, v);
      if k == h[n - 1] {
        StuckPaysExactly(h, r - k * v, n - 1, rest);
      } else {
        MulSplit(k, 1, v);
        assert j * v == k * v + v;
        SweepNegative(Over, h, r - j * v, n - 1);
        NothingIsWorthless(n - 1);
      }
    }
  }

  /** Taking coins while something is left takes one coin more than taking them while more than one is left. */
  lemma {:induction false} StrictThenOver(limit: nat, r: int, v: nat)
    requires r > 0 && v > 0
    ensures var k := Fit(Strict, limit, r, v);
      && k <= limit
      && r - k * v > 0
      && (k < limit ==> r - k * v <= v)
      && Fit(Over, limit, r, v) == if k < limit then k + 1 else k
    decreases limit
  {
    if limit > 0 {
      if r > v {
        StrictThenOver(limit - 1, r - v, v);
        MulSplit(1, Fit(Strict, limit - 1, r - v, v), v);
      } else {
        assert Fit(Over, limit - 1, r - v, v) == 0;
      }
    }
  }

  lemma {:induction false} OverReaches(h: Tally, r: int, n: nat)
    requires n <= DENOMS
    ensures if Worth(h, n) >= r then Worth(Sweep(Over, h, r, n), n) >= r else Worth(Sweep(Over, h, r, n), n) < r
    decreases n
  {
    hide Amount, Sweep;
    if n > 0 {
      var v := Amount(n - 1);
      var k := Fit(Over, h[n - 1], r, v);
      FitBounds(Over, h[n - 1], r, v);
      SweepStep(Over, h, r, n);
      OverReaches(h, r - k * v, n - 1);
      MulLe(k, h[n - 1], v);
    }
    SweepBounds(Over, h, r, n);
    WorthMonotone(Sweep(Over, h, r, n), h, n);
  }

  /** A single coin larger than the target is never out of reach of the way back up. */
  lemma LargerCoinUnsticks(h: Tally, target: int, n: nat, m: nat)
    requires n <= m < DENOMS && h[m] > 0 && Amount(m) > target
    ensures !Stuck(h, target, n)
  {
    SweepBounds(Strict, h, target, n);
    assert Sweep(Strict, h, target, n)[m] == 0;
  }

  /** Ranks without coins can be swept or not. */
  lemma {:induction false} SweepAbove(mode: Mode, h: Tally, r: int, m: nat, n: nat)
    requires m <= n <= DENOMS && forall i :: m <= i < n ==> h[i] == 0
    ensures Sweep(mode, h, r, n) == Sweep(mode, h, r, m)
    decreases n
  {
    if m < n {
      SweepBounds(mode, h, r, n - 1);
      SweepAbove(mode, h, r, m, n - 1);
    }
  }

  /** The precondition of MinimizeChange on the path where no single coin covers the target. */
  lemma StuckMeansNoChange(h: Tally, target: int, n: nat)
    requires n <= DENOMS && (forall i :: n <= i < DENOMS ==> h[i] == 0) && Stuck(h, target, n)
    ensures Count(Change(Worth(Sweep(Over, h, target, DENOMS), DENOMS) - target), DENOMS) == 0
  {
    NothingIsWorthless(DENOMS);
    hide Amount, Sweep;
    SweepAbove(Strict, h, target, n, DENOMS);
    SweepBounds(Strict, h, target, n);
    WorthAbove(Sweep(Strict, h, target, n), n, DENOMS);
    OverReaches(h, target, DENOMS);
    if Worth(h, DENOMS) >= target {
      WorthMonotone(Sweep(Strict, h, target, DENOMS), h, DENOMS);
      StuckPaysExactly(h, target, DENOMS, target - Worth(Sweep(Strict, h, target, n), n));
    }
    ChangeConserves(Worth(Sweep(Over, h, target, DENOMS), DENOMS) - target);
  }

  /** The smallest denomination held of which one coin is more than the target. */
  ghost predicate SmallestOver(held: Tally, target: int, d: int) {
    && 0 <= d < DENOMS && held[d] > 0 && Amount(d) > target
    && forall i :: 0 <= i < d ==> held[i] == 0 || Amount(i) <= target
  }

  /**
   How the coins are chosen when change is needed.  With a single coin that covers the target: that coin, or,
   when change is to be minimized, the better attempt with smaller ones.  Otherwise the largest coins until the
   target is covered, or the better attempt unless it takes more coins and change need not be minimized.
   */
  ghost predicate Calculated(maxSpends: int, minimize: bool, target: int, held: Tally, attempt: Tally, used: Tally) {
    && (forall d :: SmallestOver(held, target, d) ==>
          && (minimize ==> IsAttempt(held, target, d, attempt))
          && used == if minimize && Better(held, attempt, target, maxSpends, Count(Change(Amount(d) - target), DENOMS))
                     then Spending(held, attempt, target) else NONE[d := 1])
    && ((forall d :: !SmallestOver(held, target, d)) ==>
          var all := Sweep(Over, held, target, DENOMS);
          && IsAttempt(held, target, DENOMS, attempt)
          && used == if Better(held, attempt, target, maxSpends, Count(Change(Worth(all, DENOMS) - target), DENOMS))
                        && (minimize || Count(Spending(held, attempt, target), DENOMS) <= Count(all, DENOMS))
                     then Spending(held, attempt, target) else all)
  }

  lemma OneSmallestOver(held: Tally, target: int, d: int, e: int)
    requires SmallestOver(held, target, d) && SmallestOver(held, target, e)
    ensures d == e
  {
    hide Amount;
  }

  /** Ranks without coins make no difference to the attempt. */
  lemma AttemptAbove(held: Tally, target: int, m: nat, n: nat, attempt: Tally)
    requires m <= n <= DENOMS && IsAttempt(held, target, m, attempt) && forall i :: m <= i < n ==> held[i] == 0
    ensures IsAttempt(held, target, n, attempt)
  {
    hide Sweep, Covered, Worth;
    SweepAbove(Strict, held, target, m, n);
    SweepBounds(Strict, held, target, m);
    WorthAbove(Sweep(Strict, held, target, m), m, n);
  }

  /**
   The coins to spend when the target is not met exactly.  If the coins held suffice, the coins
   chosen are among them, are worth at least the target, and the count returned is that of the
   change; if they do not, the count is 0.
   */
  method CalculateChange(maxSpends: int, minimize: bool, target: int, held: Tally)
    returns (count: nat, used: Tally, ghost attempt: Tally)
    ensures Worth(held, DENOMS) >= target ==> Pays(used, held, target, count)
    ensures Worth(held, DENOMS) < target ==> count == 0
    ensures Calculated(maxSpends, minimize, target, held, attempt, used)
  {
    hide Sweep, Amount, Stuck, IsAttempt, Better, Spending;
    used, attempt := NONE, NONE;
    var over := 0;
    while over < DENOMS && !(target < Amount(over) && held[over] != 0)
      invariant 0 <= over <= DENOMS && forall i :: 0 <= i < over ==> !(target < Amount(i) && held[i] != 0)
    {
      over := over + 1;
    }
    if over < DENOMS {
      count, used, attempt := SpendOneCoin(maxSpends, minimize, target, held, over);
      forall d | SmallestOver(held, target, d) ensures d == over {
        OneSmallestOver(held, target, d, over);
      }
    } else {
      count, used, attempt := SpendLargest(maxSpends, minimize, target, held);
    }
  }

  /** The part of calculateChange for a single coin that covers the target. */
  method SpendOneCoin(maxSpends: int, minimize: bool, target: int, held: Tally, over: nat)
    returns (count: nat, used: Tally, ghost attempt: Tally)
    requires SmallestOver(held, target, over)
    ensures Worth(held, DENOMS) >= target && Pays(used, held, target, count)
    ensures minimize ==> IsAttempt(held, target, over, attempt)
    ensures used == if minimize && Better(held, attempt, target, maxSpends, Count(Change(Amount(over) - target), DENOMS))
                    then Spending(held, attempt, target) else NONE[over := 1]
  {
    hide Sweep, Amount, Stuck, IsAttempt, Better, Spending;
    SingleCoin(held, over);
    attempt := NONE;
    used := NONE[over := 1];
    var change := GetChange(Amount(over) - target);
    var changeCount := GetNumberOfCoinsUsed(change);
    if minimize {
      var next := GetNextLowerDenomHeld(over, held);
      LargerCoinUnsticks(held, target, next + 1, over);
      var newCount;
      newCount, used, attempt := MinimizeChange(maxSpends, changeCount, next, target, held, used);
      AttemptAbove(held, target, next + 1, over, attempt);
      if newCount < changeCount {
        return newCount, used, attempt;
      }
      used := NONE[over := 1];
    }
    return changeCount, used, attempt;
  }

  /** The part of calculateChange that tries to meet the target in a different way. */
  method SpendLargest(maxSpends: int, minimize: bool, target: int, held: Tally)
    returns (count: nat, used: Tally, ghost attempt: Tally)
    requires forall i :: 0 <= i < DENOMS ==> held[i] == 0 || Amount(i) <= target
    ensures Worth(held, DENOMS) >= target ==> Pays(used, held, target, count)
    ensures Worth(held, DENOMS) < target ==> count == 0
    ensures IsAttempt(held, target, DENOMS, attempt)
    ensures var all := Sweep(Over, held, target, DENOMS);
      used == if Better(held, attempt, target, maxSpends, Count(Change(Worth(all, DENOMS) - target), DENOMS))
                 && (minimize || Count(Spending(held, attempt, target), DENOMS) <= Count(all, DENOMS))
              then Spending(held, attempt, target) else all
  {
    hide Sweep, Amount, Stuck, IsAttempt, Better, Spending;
    var rest;
    used, rest := SweepDown(Over, held, target, DENOMS);
    SweepBounds(Over, held, target, DENOMS);
    OverReaches(held, target, DENOMS);
    ChangeConserves(-rest);
    NothingIsWorthless(DENOMS);
    var coinCount := GetNumberOfCoinsUsed(used);
    var change := GetChange(-rest);
    var maxChangeCount := GetNumberOfCoinsUsed(change);
    var next := GetMaxDenomHeld(held);
    if Stuck(held, target, next + 1) {
      StuckMeansNoChange(held, target, next + 1);
    }
    var minUsed;
    count, minUsed, attempt := MinimizeChange(maxSpends, maxChangeCount, next, target, held, used);
    AttemptAbove(held, target, next + 1, DENOMS, attempt);
    var spends := GetNumberOfCoinsUsed(minUsed);
    if !minimize && coinCount < spends {
      return maxChangeCount, used, attempt;
    }
    used := minUsed;
  }

  lemma {:induction false} SingleCoin(held: Tally, d: nat)
    requires d < DENOMS && held[d] > 0
    ensures Worth(NONE[d := 1], DENOMS) == Amount(d) && Within(NONE[d := 1], held) && Worth(held, DENOMS) >= Amount(d)
  {
    NothingIsWorthless(DENOMS);
    OneMore(NONE, d, DENOMS);
    WorthMonotone(NONE[d := 1], held, DENOMS);
  }

  ///////////////////////////////////////////////////////////////////////////////////////////////
  // Choosing mints
  ///////////////////////////////////////////////////////////////////////////////////////////////

  function MintAmount(m: Mint): nat {
    if 0 <= m.denom < DENOMS then Amount(m.denom) else 0
  }

  /** A choice of mints to spend, none of them used already. */
  ghost predicate IsChoice(mints: seq<Mint>, mask: seq<bool>) {
    |mask| == |mints| && forall i :: 0 <= i < |mints| && mask[i] ==> !mints[i].isUsed
  }

  function ChoiceWorth(mints: seq<Mint>, mask: seq<bool>): nat
    requires |mask| == |mints|
  {
    if mints == [] then 0 else (if mask[0] then MintAmount(mints[0]) else 0) + ChoiceWorth(mints[1..], mask[1..])
  }

  lemma {:induction false} ChoiceHasTally(mints: seq<Mint>, mask: seq<bool>) returns (u: Tally)
    requires IsChoice(mints, mask)
    ensures Within(u, Supply(mints)) && Worth(u, DENOMS) == ChoiceWorth(mints, mask)
    decreases mints
  {
    hide Amount;
    if mints == [] {
      u := NONE;
      NothingIsWorthless(DENOMS);
    } else {
      assert IsChoice(mints[1..], mask[1..]) by {
        forall i | 0 <= i < |mints[1..]| && mask[1..][i] ensures !mints[1..][i].isUsed {
          assert mask[i + 1];
        }
      }
      u := ChoiceHasTally(mints[1..], mask[1..]);
      var d := mints[0].denom;
      if mask[0] && 0 <= d < DENOMS {
        OneMore(u, d, DENOMS);
        u := u[d := u[d] + 1];
      }
    }
  }

  lemma {:induction false} TallyHasChoice(mints: seq<Mint>, u: Tally) returns (mask: seq<bool>)
    requires Within(u, Supply(mints))
    ensures IsChoice(mints, mask) && ChoiceWorth(mints, mask) == Worth(u, DENOMS)
    decreases mints
  {
    hide Amount;
    if mints == [] {
      mask := [];
      assert u == NONE;
      NothingIsWorthless(DENOMS);
    } else {
      var d := mints[0].denom;
      if !mints[0].isUsed && 0 <= d < DENOMS && u[d] > 0 {
        var less := u[d := u[d] - 1];
        OneMore(less, d, DENOMS);
        assert less[d := less[d] + 1] == u;
        var rest := TallyHasChoice(mints[1..], less);
        mask := [true] + rest;
      } else {
        var rest := TallyHasChoice(mints[1..], u);
        mask := [false] + rest;
      }
    }
  }

  /**
   Attempts to reach the target exactly, largest coins first.  It succeeds exactly when some choice
   among the unused mints is worth the target.
   */
  method GetIdealSpends(target: int, mints: seq<Mint>) returns (exact: bool, used: Tally)
    ensures used == Sweep(Exact, Supply(mints), target, DENOMS)
    ensures exact <==> exists mask :: IsChoice(mints, mask) && ChoiceWorth(mints, mask) == target
    ensures exact <==> Worth(used, DENOMS) == target
  {
    hide Amount, Sweep, Fit, Supply, Available;
    used := NONE;
    var held, rest, i := Supply(mints), target, DENOMS;
    while i > 0
      invariant 0 <= i <= DENOMS
      invariant forall j :: 0 <= j < DENOMS ==> used[j] == if i <= j then Sweep(Exact, held, target, DENOMS)[j] else 0
      invariant forall j :: 0 <= j < i ==> Sweep(Exact, held, target, DENOMS)[j] == Sweep(Exact, held, rest, i)[j]
      invariant rest - Worth(Sweep(Exact, held, rest, i), i) == target - Worth(Sweep(Exact, held, target, DENOMS), DENOMS)
    {
      i := i - 1;
      SweepStep(Exact, held, rest, i + 1);
      SupplyAt(mints, i);
      var k, r := GrabMints(mints, i, rest);
      used, rest := used[i := k], r;
    }
    assert used == Sweep(Exact, held, target, DENOMS);
    exact := rest == 0;
    ExactIffPossible(held, target);
    if u: Tally :| Within(u, held) && Worth(u, DENOMS) == target {
      var mask := TallyHasChoice(mints, u);
    }
    if mask :| IsChoice(mints, mask) && ChoiceWorth(mints, mask) == target {
      var u := ChoiceHasTally(mints, mask);
    }
  }

  lemma FitStep(mode: Mode, limit: nat, r: int, v: nat)
    ensures limit > 0 && mode.Takes(r, v) ==> Fit(mode, limit, r, v) == 1 + Fit(mode, limit - 1, r - v, v)
    ensures limit == 0 || !mode.Takes(r, v) ==> Fit(mode, limit, r, v) == 0
  {}

  lemma AvailableStep(mints: seq<Mint>, i: nat, d: int)
    requires i <= |mints|
    ensures i < |mints| ==>
      Available(mints[i..], d) == Available(mints[i + 1..], d) + if !mints[i].isUsed && mints[i].denom == d then 1 else 0
    ensures i == |mints| ==> Available(mints[i..], d) == 0
  {
    if i < |mints| {
      assert mints[i..][0] == mints[i] && mints[i..][1..] == mints[i + 1..];
    }
  }

  /** The inner loop of getIdealSpends: walks the list for mints of one denomination. */
  method GrabMints(mints: seq<Mint>, d: nat, value: int) returns (k: nat, rest: int)
    requires d < DENOMS
    ensures k == Fit(Exact, Available(mints, d), value, Amount(d)) && rest == value - k * Amount(d)
  {
    hide Amount, Fit, Available;
    var v := Amount(d);
    k, rest := 0, value;
    var i := 0;
    assert mints[0..] == mints;
    while i < |mints|
      invariant 0 <= i <= |mints| && rest == value - k * v
      invariant Fit(Exact, Available(mints, d), value, v) == k + Fit(Exact, Available(mints[i..], d), rest, v)
    {
      AvailableStep(mints, i, d);
      FitStep(Exact, Available(mints[i..], d), rest, v);
      if !mints[i].isUsed {
        if rest >= v && mints[i].denom == d {
          k := k + 1;
          rest := rest - v;
        }
        if rest < v {
          FitStep(Exact, Available(mints[i + 1..], d), rest, v);
          return;
        }
      }
      i := i + 1;
    }
    AvailableStep(mints, i, d);
    FitStep(Exact, 0, rest, v);
  }

  /** The positions of the unused mints of a denomination among the first `n`. */
  function Unused(mints: seq<Mint>, d: int, n: nat): seq<nat>
    requires n <= |mints|
  {
    if n == 0 then []
    else Unused(mints, d, n - 1) + if !mints[n - 1].isUsed && mints[n - 1].denom == d then [n - 1] else []
  }

  /** `k` positions from a list of them, starting over whenever the list is exhausted. */
  function Cycle(list: seq<nat>, k: nat): seq<nat>
    requires k > 0 ==> list != []
  {
    if k <= |list| then list[..k] else list + Cycle(list, k - |list|)
  }

  /** The positions that getSpends selects: largest denominations first. */
  function Picked(mints: seq<Mint>, used: Tally, n: nat): seq<nat>
    requires n <= DENOMS && forall d :: 0 <= d < n && used[d] > 0 ==> Unused(mints, d, |mints|) != []
  {
    if n == 0 then []
    else Cycle(Unused(mints, n - 1, |mints|), used[n - 1]) + Picked(mints, used, n - 1)
  }

  /**
   Turns numbers of coins into mints.  The walk over the list is repeated until the number wanted is
   reached, so it ends only if there is a mint of each denomination wanted.
   */
  method GetSpends(mints: seq<Mint>, used: Tally) returns (selected: seq<nat>, value: nat)
    requires forall d :: 0 <= d < DENOMS && used[d] > 0 ==> Unused(mints, d, |mints|) != []
    ensures selected == Picked(mints, used, DENOMS) && value == Worth(used, DENOMS)
  {
    hide Amount, Unused, Cycle;
    selected, value := [], 0;
    var d := DENOMS;
    while d > 0
      invariant 0 <= d <= DENOMS
      invariant selected + Picked(mints, used, d) == Picked(mints, used, DENOMS)
      invariant value + Worth(used, d) == Worth(used, DENOMS)
    {
      d := d - 1;
      var picks, worth := PickDenom(mints, d, used[d]);
      selected := selected + picks;
      value := value + worth;
    }
  }

  method PickDenom(mints: seq<Mint>, d: nat, wanted: nat) returns (picks: seq<nat>, worth: nat)
    requires d < DENOMS && (wanted > 0 ==> Unused(mints, d, |mints|) != [])
    ensures picks == Cycle(Unused(mints, d, |mints|), wanted) && worth == wanted * Amount(d)
  {
    hide Amount, Unused;
    ghost var all := Unused(mints, d, |mints|);
    picks, worth := [], 0;
    var left: nat := wanted;
    var more := true;
    while more
      invariant left > 0 ==> more && all != []
      invariant picks + Cycle(all, left) == Cycle(all, wanted)
      invariant worth + left * Amount(d) == wanted * Amount(d)
      decreases left, more
    {
      var round, taken := OneRound(mints, d, left);
      MulSplit(left - taken, taken, Amount(d));
      picks := picks + round;
      worth := worth + taken * Amount(d);
      left := left - taken;
      more := left != 0;
    }
  }

  /** One walk over the list for a denomination. */
  method OneRound(mints: seq<Mint>, d: nat, wanted: nat) returns (round: seq<nat>, taken: nat)
    requires d < DENOMS
    ensures var all := Unused(mints, d, |mints|);
      taken == (if wanted <= |all| then wanted else |all|) && round == all[..taken]
  {
    round, taken := [], 0;
    var i := 0;
    while i < |mints|
      invariant 0 <= i <= |mints|
      invariant taken == if wanted <= |Unused(mints, d, i)| then wanted else |Unused(mints, d, i)|
      invariant round == Unused(mints, d, i)[..taken]
    {
      if !mints[i].isUsed && mints[i].denom == d && wanted != taken {
        round := round + [i];
        taken := taken + 1;
      }
      i := i + 1;
    }
  }

  lemma {:induction false} UnusedOf(mints: seq<Mint>, d: int, n: nat)
    requires n <= |mints|
    ensures forall i :: 0 <= i < |Unused(mints, d, n)| ==>
      var p := Unused(mints, d, n)[i]; p < n && !mints[p].isUsed && mints[p].denom == d
    ensures forall i, j :: 0 <= i < j < |Unused(mints, d, n)| ==> Unused(mints, d, n)[i] != Unused(mints, d, n)[j]
    decreases n
  {
    if n > 0 {
      UnusedOf(mints, d, n - 1);
    }
  }

  lemma {:induction false} AvailableAppend(mints: seq<Mint>, m: Mint, d: int)
    ensures Available(mints + [m], d) == Available(mints, d) + if !m.isUsed && m.denom == d then 1 else 0
    decreases mints
  {
    if mints == [] {
      assert (mints + [m])[1..] == [];
    } else {
      AvailableAppend(mints[1..], m, d);
      assert (mints + [m])[1..] == mints[1..] + [m];
    }
  }

  lemma {:induction false} UnusedCount(mints: seq<Mint>, d: int, n: nat)
    requires n <= |mints|
    ensures |Unused(mints, d, n)| == Available(mints[..n], d)
    decreases n
  {
    if n > 0 {
      UnusedCount(mints, d, n - 1);
      assert mints[..n] == mints[..n - 1] + [mints[n - 1]];
      AvailableAppend(mints[..n - 1], mints[n - 1], d);
    }
  }

  lemma SupplyCounts(mints: seq<Mint>, d: nat)
    requires d < DENOMS
    ensures |Unused(mints, d, |mints|)| == Supply(mints)[d]
  {
    UnusedCount(mints, d, |mints|);
    assert mints[..|mints|] == mints;
    SupplyAt(mints, d);
  }

  lemma {:induction false} CycleElements(list: seq<nat>, k: nat)
    requires k > 0 ==> list != []
    ensures |Cycle(list, k)| == k && forall i :: 0 <= i < k ==> Cycle(list, k)[i] in list
    decreases k
  {
    if k > |list| {
      CycleElements(list, k - |list|);
    }
  }

  /** What getSpends selects: unused mints, as many as wanted of each denomination. */
  lemma {:induction false} PickedElements(mints: seq<Mint>, used: Tally, n: nat)
    requires n <= DENOMS && forall d :: 0 <= d < n && used[d] > 0 ==> Unused(mints, d, |mints|) != []
    ensures |Picked(mints, used, n)| == Count(used, n)
    ensures forall i :: 0 <= i < |Picked(mints, used, n)| ==>
      var p := Picked(mints, used, n)[i]; p < |mints| && !mints[p].isUsed && 0 <= mints[p].denom < n
    decreases n
  {
    if n > 0 {
      PickedElements(mints, used, n - 1);
      CycleElements(Unused(mints, n - 1, |mints|), used[n - 1]);
      UnusedOf(mints, n - 1, |mints|);
    }
  }

  lemma CycleDistinct(list: seq<nat>, k: nat)
    requires Distinct(list) && (k > 0 ==> list != [])
    ensures Distinct(Cycle(list, k)) <==> k <= |list|
  {
    if k > |list| {
      CycleElements(list, k);
      CycleElements(list, k - |list|);
      var again := Cycle(list, k - |list|);
      assert Cycle(list, k)[0] == list[0] && Cycle(list, k)[|list|] == again[0];
      assert again[0] == list[0];
    }
  }

  /** The picks of one denomination are distinct exactly when there are enough of them. */
  lemma TopDistinct(mints: seq<Mint>, d: nat, k: nat)
    requires d < DENOMS && (k > 0 ==> Unused(mints, d, |mints|) != [])
    ensures var top := Cycle(Unused(mints, d, |mints|), k);
      && (Distinct(top) <==> k <= Supply(mints)[d])
      && forall i :: 0 <= i < |top| ==> top[i] < |mints| && mints[top[i]].denom == d
  {
    hide Supply, Unused, Cycle;
    var list := Unused(mints, d, |mints|);
    CycleElements(list, k);
    UnusedOf(mints, d, |mints|);
    SupplyCounts(mints, d);
    CycleDistinct(list, k);
  }

  /** Picks of one denomination are no picks of the lower ones. */
  lemma TopApart(mints: seq<Mint>, used: Tally, n: nat, top: seq<nat>)
    requires n < DENOMS && forall d :: 0 <= d < n && used[d] > 0 ==> Unused(mints, d, |mints|) != []
    requires forall i :: 0 <= i < |top| ==> top[i] < |mints| && mints[top[i]].denom == n
    ensures forall i, j :: 0 <= i < |top| && 0 <= j < |Picked(mints, used, n)| ==> top[i] != Picked(mints, used, n)[j]
  {
    hide Picked, Unused, Count;
    PickedElements(mints, used, n);
    var low := Picked(mints, used, n);
    forall i, j | 0 <= i < |top| && 0 <= j < |low| ensures top[i] != low[j] {
      assert mints[top[i]].denom == n;
    }
  }

  /** The picks are distinct exactly when those of the top denomination and the others are. */
  lemma PickedSplit(mints: seq<Mint>, used: Tally, n: nat)
    requires n < DENOMS && forall d :: 0 <= d <= n && used[d] > 0 ==> Unused(mints, d, |mints|) != []
    ensures Distinct(Picked(mints, used, n + 1)) <==> used[n] <= Supply(mints)[n] && Distinct(Picked(mints, used, n))
  {
    hide Supply, Unused, Cycle, Distinct;
    var top, low := Cycle(Unused(mints, n, |mints|), used[n]), Picked(mints, used, n);
    assert Picked(mints, used, n + 1) == top + low;
    hide Picked;
    TopDistinct(mints, n, used[n]);
    TopApart(mints, used, n, top);
    DistinctConcat(top, low);
  }

  lemma NothingPicked(mints: seq<Mint>, used: Tally)
    ensures Distinct(Picked(mints, used, 0))
  {}

  /** No mint is selected twice exactly when no more mints are wanted than there are. */
  lemma {:induction false} PickedDistinct(mints: seq<Mint>, used: Tally, n: nat)
    requires n <= DENOMS && forall d :: 0 <= d < n && used[d] > 0 ==> Unused(mints, d, |mints|) != []
    ensures Distinct(Picked(mints, used, n)) <==> forall d :: 0 <= d < n ==> used[d] <= Supply(mints)[d]
    decreases n
  {
    hide *;
    if n == 0 {
      NothingPicked(mints, used);
    } else {
      PickedDistinct(mints, used, n - 1);
      PickedSplit(mints, used, n - 1);
    }
  }

  lemma DistinctConcat(a: seq<nat>, b: seq<nat>)
    requires forall i, j :: 0 <= i < |a| && 0 <= j < |b| ==> a[i] != b[j]
    ensures Distinct(a + b) <==> Distinct(a) && Distinct(b)
  {
    if Distinct(a + b) {
      forall i, j | 0 <= i < j < |a| ensures a[i] != a[j] {
        assert (a + b)[i] != (a + b)[j];
      }
      forall i, j | 0 <= i < j < |b| ensures b[i] != b[j] {
        assert (a + b)[|a| + i] != (a + b)[|a| + j];
      }
    }
  }

  /** The sum of the amounts of the mints at the given positions. */
  function SumOf(mints: seq<Mint>, selected: seq<nat>): nat
    requires forall i :: 0 <= i < |selected| ==> selected[i] < |mints|
  {
    if selected == [] then 0 else MintAmount(mints[selected[0]]) + SumOf(mints, selected[1..])
  }

  lemma {:induction false} SumOfAll(mints: seq<Mint>, a: seq<nat>, d: nat, b: seq<nat>)
    requires d < DENOMS && forall i :: 0 <= i < |a| ==> a[i] < |mints| && mints[a[i]].denom == d
    requires forall i :: 0 <= i < |b| ==> b[i] < |mints|
    ensures SumOf(mints, a + b) == |a| * Amount(d) + SumOf(mints, b)
    decreases a
  {
    hide Amount;
    if a == [] {
      assert a + b == b;
    } else {
      SumOfAll(mints, a[1..], d, b);
      assert (a + b)[0] == a[0] && (a + b)[1..] == a[1..] + b;
      MulSplit(|a| - 1, 1, Amount(d));
    }
  }

  /** The mints selected are worth as much as the numbers of coins wanted. */
  lemma {:induction false} PickedWorth(mints: seq<Mint>, used: Tally, n: nat)
    requires n <= DENOMS && forall d :: 0 <= d < n && used[d] > 0 ==> Unused(mints, d, |mints|) != []
    ensures forall i :: 0 <= i < |Picked(mints, used, n)| ==> Picked(mints, used, n)[i] < |mints|
    ensures SumOf(mints, Picked(mints, used, n)) == Worth(used, n)
    decreases n
  {
    hide Amount, Cycle, Unused, Supply, SumOf;
    if n == 0 {
      SumOfNone(mints);
    } else {
      PickedWorth(mints, used, n - 1);
      var top, low := Cycle(Unused(mints, n - 1, |mints|), used[n - 1]), Picked(mints, used, n - 1);
      assert Picked(mints, used, n) == top + low && Worth(used, n) == Worth(used, n - 1) + used[n - 1] * Amount(n - 1);
      hide Picked, Worth;
      TopDistinct(mints, n - 1, used[n - 1]);
      CycleElements(Unused(mints, n - 1, |mints|), used[n - 1]);
      SumOfAll(mints, top, n - 1, low);
    }
  }

  lemma SumOfNone(mints: seq<Mint>)
    ensures SumOf(mints, []) == 0
  {}

  lemma {:induction false} WorthIsRound(u: Tally, n: nat)
    requires n <= DENOMS
    ensures Worth(u, n) % COIN == 0 && (Count(u, n) == 0 ==> Worth(u, n) == 0)
    decreases n
  {
    if n > 0 {
      WorthIsRound(u, n - 1);
      var k := u[n - 1] * [1, 5, 10, 50, 100, 500, 1000, 5000][n - 1];
      hide Amount;
      assert Amount(n - 1) == COIN * [1, 5, 10, 50, 100, 500, 1000, 5000][n - 1] by { AmountIs(n - 1); }
      MulAssoc(u[n - 1], [1, 5, 10, 50, 100, 500, 1000, 5000][n - 1], COIN);
      RoundSum(Worth(u, n - 1), k);
    }
  }

  lemma AmountIs(i: nat)
    requires i < DENOMS
    ensures Amount(i) == COIN * [1, 5, 10, 50, 100, 500, 1000, 5000][i]
  {}

  lemma RoundSum(x: nat, k: nat)
    requires x % COIN == 0
    ensures (x + k * COIN) % COIN == 0
  {}

  /** Paying more than a whole number of coins always leaves change. */
  lemma MoreMeansChange(worth: nat, target: int)
    requires worth > target && worth % COIN == 0 && target % COIN == 0
    ensures Count(Change(worth - target), DENOMS) > 0
  {
    ChangeConserves(worth - target);
    WorthIsRound(Change(worth - target), DENOMS);
    assert worth - target >= COIN;
  }

  /** Can the target be paid exactly with no more mints than allowed? */
  ghost predicate ExactWithin(mints: seq<Mint>, target: int, maxSpends: nat) {
    exists u: Tally :: Within(u, Supply(mints)) && Worth(u, DENOMS) == target && Count(u, DENOMS) <= maxSpends
  }

  /** No choice of the coins held is worth exactly the target. */
  ghost predicate NoneIsExact(held: Tally, target: int) {
    forall u: Tally :: Within(u, held) ==> Worth(u, DENOMS) != target
  }

  /** If so, the largest coins first do it. */
  lemma ExactWithinIs(mints: seq<Mint>, target: int, maxSpends: nat)
    ensures var ideal := Sweep(Exact, Supply(mints), target, DENOMS);
      ExactWithin(mints, target, maxSpends) <==> Worth(ideal, DENOMS) == target && Count(ideal, DENOMS) <= maxSpends
  {
    hide Sweep, Amount, Supply, Worth, Count;
    var ideal := Sweep(Exact, Supply(mints), target, DENOMS);
    SweepBounds(Exact, Supply(mints), target, DENOMS);
    if u: Tally :| Within(u, Supply(mints)) && Worth(u, DENOMS) == target && Count(u, DENOMS) <= maxSpends {
      SweepComplete(Supply(mints), target, DENOMS, u);
      SweepThrifty(Supply(mints), target, DENOMS, u);
    }
  }

  /** Mints for numbers of coins that there are enough of. */
  method Spend(mints: seq<Mint>, used: Tally) returns (selected: seq<nat>, value: nat)
    requires Within(used, Supply(mints))
    ensures Distinct(selected) && forall i :: 0 <= i < |selected| ==> selected[i] < |mints| && !mints[selected[i]].isUsed
    ensures value == Worth(used, DENOMS) == SumOf(mints, selected) && |selected| == Count(used, DENOMS)
  {
    hide Worth, Count, Supply, Unused, Picked, Distinct;
    EnoughMints(mints, used);
    PickedDistinct(mints, used, DENOMS);
    PickedElements(mints, used, DENOMS);
    PickedWorth(mints, used, DENOMS);
    selected, value := GetSpends(mints, used);
  }

  /**
   The whole selection: exactly, if that is possible within the limit of spends, and otherwise with
   change.  Whatever is selected consists of distinct unused mints, is worth what is reported and at least the
   target, and a result without change on the second path is treated as a failure.  With a positive target
   something is selected exactly when the target can be paid exactly within the limit or some change is left,
   and always when the coins held suffice but no choice of them is worth exactly a target of whole coins.
   */
  method SelectMints(target: int, maxSpends: nat, minimize: bool, mints: seq<Mint>, held: Tally)
    returns (selected: seq<nat>, value: int, coinsReturned: nat, neededSpends: nat, ghost used: Tally, ghost attempt: Tally)
    requires Within(held, Supply(mints))
    ensures Distinct(selected) && forall i :: 0 <= i < |selected| ==> selected[i] < |mints| && !mints[selected[i]].isUsed
    ensures selected != [] ==>
      value == SumOf(mints, selected) && value >= target && coinsReturned == Count(Change(value - target), DENOMS)
    ensures ExactWithin(mints, target, maxSpends) ==>
      SumOf(mints, selected) == value == target && |selected| <= maxSpends && coinsReturned == 0
    ensures !ExactWithin(mints, target, maxSpends) ==>
      && Calculated(maxSpends, minimize, target, held, attempt, used)
      && |selected| == (if coinsReturned == 0 then 0 else Count(used, DENOMS))
      && (selected != [] ==> value == Worth(used, DENOMS))
    ensures target > 0 ==> (selected != [] <==> ExactWithin(mints, target, maxSpends) || coinsReturned > 0)
    ensures target > 0 && target % COIN == 0 && Worth(held, DENOMS) >= target && NoneIsExact(held, target) ==> selected != []
    ensures Worth(held, DENOMS) < target && !ExactWithin(mints, target, maxSpends) ==> selected == []
    ensures var ideal := Sweep(Exact, Supply(mints), target, DENOMS);
      neededSpends == if Worth(ideal, DENOMS) == target && Count(ideal, DENOMS) > maxSpends then Count(ideal, DENOMS) else 0
  {
    hide Amount, Sweep, Supply, Worth, Count, Calculated;
    SweepBounds(Exact, Supply(mints), target, DENOMS);
    NothingIsWorthless(DENOMS);
    ExactWithinIs(mints, target, maxSpends);
    var exact, denomsUsed := GetIdealSpends(target, mints);
    value, neededSpends, attempt := 0, 0, NONE;
    used := denomsUsed;
    if exact {
      coinsReturned := 0;
      selected, value := Spend(mints, denomsUsed);
      ChangeConserves(value - target);
      if |selected| <= maxSpends {
        NoCoinsNoWorth(denomsUsed);
        return;
      }
      neededSpends := |selected|;
    }
    coinsReturned, denomsUsed, attempt := CalculateChange(maxSpends, minimize, target, held);
    used := denomsUsed;
    NoCoinsNoWorth(used);
    selected := [];
    if coinsReturned != 0 {
      selected, value := Spend(mints, denomsUsed);
    }
    if target % COIN == 0 && Worth(used, DENOMS) > target {
      WorthIsRound(used, DENOMS);
      MoreMeansChange(Worth(used, DENOMS), target);
    }
  }

  lemma NoCoinsNoWorth(u: Tally)
    ensures Count(u, DENOMS) == 0 ==> Worth(u, DENOMS) == 0
  {
    WorthIsRound(u, DENOMS);
  }

  lemma {:induction false} EnoughMints(mints: seq<Mint>, used: Tally)
    requires Within(used, Supply(mints))
    ensures forall d :: 0 <= d < DENOMS && used[d] > 0 ==> Unused(mints, d, |mints|) != []
  {
    hide Supply, Unused;
    forall d | 0 <= d < DENOMS && used[d] > 0 ensures Unused(mints, d, |mints|) != [] {
      SupplyCounts(mints, d);
    }
  }
}
