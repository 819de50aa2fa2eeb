/**
 Coins of the eight denominations 1, 5, 10, 50, 100, 500, 1000 and 5000: the arithmetic behind the
 coin selection in CoinSelection.dfy.

 Each denomination divides the next one.  That is why taking the largest coins first finds an exact
 payment whenever there is one, and gives change in the fewest coins; both are proved here.
 */
module Denominations {

  const COIN: nat := 100_000_000
  const DENOMS: nat := 8

  /** A number of coins for each denomination, by rank in the list of denominations. */
  type Tally = t: seq<nat> | |t| == 8 witness [0, 0, 0, 0, 0, 0, 0, 0]

  const NONE: Tally := [0, 0, 0, 0, 0, 0, 0, 0]

  function Amount(i: nat): (v: nat)
    requires i < DENOMS
    ensures v > 0
  {
    COIN * [1, 5, 10, 50, 100, 500, 1000, 5000][i]
  }

  /** How many coins of rank `i` make one of rank `i + 1`. */
  function Ratio(i: nat): (r: nat)
    requires i + 1 < DENOMS
    ensures r >= 2 && Amount(i + 1) == r * Amount(i)
  {
    [5, 2, 5, 2, 5, 2, 5][i]
  }

  /** The value of the coins below rank `n`. */
  function Worth(u: Tally, n: nat): nat
    requires n <= DENOMS
  {
    if n == 0 then 0 else Worth(u, n - 1) + u[n - 1] * Amount(n - 1)
  }

  /** The number of coins below rank `n`. */
  function Count(u: Tally, n: nat): nat
    requires n <= DENOMS
  {
    if n == 0 then 0 else Count(u, n - 1) + u[n - 1]
  }

  ghost predicate Within(u: Tally, h: Tally) {
    forall i :: 0 <= i < DENOMS ==> u[i] <= h[i]
  }

  ///////////////////////////////////////////////////////////////////////////////////////////////
  // Largest first
  ///////////////////////////////////////////////////////////////////////////////////////////////

  /** When the loops take one more coin of value `v`, with `r` left to pay. */
  datatype Mode = Exact | Strict | Over
  {
    predicate Takes(r: int, v: nat) {
      match this
      case Exact => r >= v
      case Strict => r > v
      case Over => r > 0
    }
  }

  /** How many of `limit` coins of value `v` are taken. */
  function Fit(mode: Mode, limit: nat, r: int, v: nat): nat {
    if limit == 0 || !mode.Takes(r, v) then 0 else 1 + Fit(mode, limit - 1, r - v, v)
  }

  /** The coins taken from `h` for the value `r`, from rank `n - 1` down. */
  function Sweep(mode: Mode, h: Tally, r: int, n: nat): Tally
    requires n <= DENOMS
  {
    if n == 0 then NONE
    else
      var k := Fit(mode, h[n - 1], r, Amount(n - 1));
      Sweep(mode, h, r - k * Amount(n - 1), n - 1)[n - 1 := k]
  }

  /** As many coins of each denomination as any change for `r` could need. */
  function Plenty(r: int): Tally {
    var k := if r < 0 then 0 else r;
    [k, k, k, k, k, k, k, k]
  }

  function Change(r: int): Tally {
    Sweep(Exact, Plenty(r), r, DENOMS)
  }

  lemma OneCoin(r: int, k: int, v: int)
    ensures r - (k + 1) * v == (r - v) - k * v
  {}

  lemma {:induction false} FitBounds(mode: Mode, limit: nat, r: int, v: nat)
    requires v > 0
    ensures var k := Fit(mode, limit, r, v);
      && k <= limit
      && (k < limit ==> !mode.Takes(r - k * v, v))
      && (k > 0 ==> mode.Takes(r - (k - 1) * v, v))
    decreases limit
  {
    if limit > 0 && mode.Takes(r, v) {
      FitBounds(mode, limit - 1, r - v, v);
      var k := Fit(mode, limit - 1, r - v, v);
      OneCoin(r, k, v);
      if k > 0 {
        OneCoin(r, k - 1, v);
      }
    }
  }

  lemma {:induction false} SweepBounds(mode: Mode, h: Tally, r: int, n: nat)
    requires n <= DENOMS
    ensures var u := Sweep(mode, h, r, n);
      Within(u, h) && forall i :: n <= i < DENOMS ==> u[i] == 0
    decreases n
  {
    if n > 0 {
      var k := Fit(mode, h[n - 1], r, Amount(n - 1));
      FitBounds(mode, h[n - 1], r, Amount(n - 1));
      SweepBounds(mode, h, r - k * Amount(n - 1), n - 1);
    }
  }

  /** Values only look below their rank. */
  lemma {:induction false} WorthCongruent(u: Tally, w: Tally, n: nat)
    requires n <= DENOMS && forall i :: 0 <= i < n ==> u[i] == w[i]
    ensures Worth(u, n) == Worth(w, n) && Count(u, n) == Count(w, n)
    decreases n
  {
    if n > 0 {
      WorthCongruent(u, w, n - 1);
    }
  }

  lemma {:induction false} WorthMonotone(u: Tally, h: Tally, n: nat)
    requires n <= DENOMS && forall i :: 0 <= i < n ==> u[i] <= h[i]
    ensures Worth(u, n) <= Worth(h, n)
    decreases n
  {
    if n > 0 {
      WorthMonotone(u, h, n - 1);
      MulLe(u[n - 1], h[n - 1], Amount(n - 1));
    }
  }

  lemma MulLe(a: int, b: int, v: nat)
    requires a <= b
    ensures a * v <= b * v
  {}

  lemma {:induction false} WorthMinus(u: Tally, w: Tally, d: Tally, n: nat)
    requires n <= DENOMS && forall i :: 0 <= i < n ==> w[i] <= u[i] && d[i] == u[i] - w[i]
    ensures Worth(d, n) == Worth(u, n) - Worth(w, n) && Count(d, n) == Count(u, n) - Count(w, n)
    decreases n
  {
    if n > 0 {
      WorthMinus(u, w, d, n - 1);
      assert d[n - 1] * Amount(n - 1) == u[n - 1] * Amount(n - 1) - w[n - 1] * Amount(n - 1);
    }
  }

  /** One denomination of a sweep at a time. */
  lemma SweepStep(mode: Mode, h: Tally, r: int, n: nat)
    requires 0 < n <= DENOMS
    ensures var k := Fit(mode, h[n - 1], r, Amount(n - 1));
      var r' := r - k * Amount(n - 1);
      && Sweep(mode, h, r, n)[n - 1] == k
      && (forall i :: 0 <= i < n - 1 ==> Sweep(mode, h, r, n)[i] == Sweep(mode, h, r', n - 1)[i])
      && Worth(Sweep(mode, h, r, n), n) == Worth(Sweep(mode, h, r', n - 1), n - 1) + k * Amount(n - 1)
      && Count(Sweep(mode, h, r, n), n) == Count(Sweep(mode, h, r', n - 1), n - 1) + k
  {
    var k := Fit(mode, h[n - 1], r, Amount(n - 1));
    WorthCongruent(Sweep(mode, h, r, n), Sweep(mode, h, r - k * Amount(n - 1), n - 1), n - 1);
  }

  ///////////////////////////////////////////////////////////////////////////////////////////////
  // Exact payment
  ///////////////////////////////////////////////////////////////////////////////////////////////

  /** Coins worth at least `q` coins of rank `n` contain some worth exactly that, all of lower rank. */
  lemma {:induction false} Extract(u: Tally, n: nat, q: nat) returns (w: Tally)
    requires n < DENOMS && Worth(u, n) >= q * Amount(n)
    ensures Worth(w, n) == q * Amount(n)
    ensures forall i :: 0 <= i < n ==> w[i] <= u[i]
    decreases n
  {
    hide Amount, Ratio;
    if n == 0 {
      w := NONE;
      if q > 0 {
        MulLe(1, q, Amount(0));
      }
    } else {
      var p := q * Ratio(n - 1);
      assert q * Amount(n) == p * Amount(n - 1) by {
        MulAssoc(q, Ratio(n - 1), Amount(n - 1));
      }
      if u[n - 1] >= p {
        w := NONE[n - 1 := p];
        WorthCongruent(w, NONE, n - 1);
        NothingIsWorthless(n - 1);
      } else {
        assert (p - u[n - 1]) * Amount(n - 1) == p * Amount(n - 1) - u[n - 1] * Amount(n - 1);
        var w' := Extract(u, n - 1, p - u[n - 1]);
        w := w'[n - 1 := u[n - 1]];
        WorthCongruent(w, w', n - 1);
      }
    }
  }

  lemma MulAssoc(a: nat, b: nat, c: nat)
    ensures a * (b * c) == (a * b) * c
  {}

  lemma {:induction false} NothingIsWorthless(n: nat)
    requires n <= DENOMS
    ensures Worth(NONE, n) == 0 && Count(NONE, n) == 0
  {
    if n > 0 {
      NothingIsWorthless(n - 1);
    }
  }

  lemma MulSplit(a: int, b: int, v: int)
    ensures (a + b) * v == a * v + b * v
  {}

  /** The sweep takes at the top at least as many coins as any exact payment does. */
  lemma TakesMost(h: Tally, r: int, n: nat, u: Tally)
    requires 0 < n <= DENOMS && Worth(u, n) == r && u[n - 1] <= h[n - 1]
    ensures u[n - 1] <= Fit(Exact, h[n - 1], r, Amount(n - 1))
  {
    hide Amount;
    var v := Amount(n - 1);
    var k := Fit(Exact, h[n - 1], r, v);
    FitBounds(Exact, h[n - 1], r, v);
    if k < u[n - 1] {
      MulLe(k + 1, u[n - 1], v);
      MulSplit(k, 1, v);
    }
  }

  lemma NothingIsBelow(u: Tally)
    ensures Worth(u, 0) == 0 && Count(u, 0) == 0
  {}

  lemma FitCost(limit: nat, r: nat, v: nat)
    requires v > 0
    ensures Fit(Exact, limit, r, v) * v <= r
  {
    FitBounds(Exact, limit, r, v);
    KTakes(Fit(Exact, limit, r, v), r, v);
  }

  /** Taking k instead of a coins leaves that much less for the lower coins. */
  lemma Difference(r: int, k: int, a: int, v: int, w: int)
    requires w + a * v == r && k * v <= r
    ensures (k - a) * v <= w && w - (k - a) * v == r - k * v
  {
    MulSplit(k - a, a, v);
  }

  /** Without coins of rank below `n` worth q coins of that rank. */
  lemma Reduced(u: Tally, n: nat, q: nat) returns (d: Tally)
    requires n < DENOMS && Worth(u, n) >= q * Amount(n)
    ensures Worth(d, n) == Worth(u, n) - q * Amount(n) && Count(d, n) + q <= Count(u, n)
    ensures forall i :: 0 <= i < n ==> d[i] <= u[i]
  {
    hide Amount, Worth, Count;
    var w := Extract(u, n, q);
    d := seq(DENOMS, i requires 0 <= i < DENOMS => if i < n then u[i] - w[i] else 0);
    WorthMinus(u, w, d, n);
    WorthPerCoin(w, n, n);
    if Count(w, n) < q {
      MulLe(Count(w, n) + 1, q, Amount(n));
      MulSplit(Count(w, n), 1, Amount(n));
    }
  }

  lemma {:induction false} AmountsAscend(i: nat, n: nat)
    requires i <= n < DENOMS
    ensures Amount(i) <= Amount(n)
    decreases n
  {
    if i < n {
      AmountsAscend(i, n - 1);
      MulLe(1, Ratio(n - 1), Amount(n - 1));
    }
  }

  /** Coins of lower rank are worth no more each than one of a higher rank. */
  lemma {:induction false} WorthPerCoin(w: Tally, m: nat, n: nat)
    requires m <= n < DENOMS
    ensures Worth(w, m) <= Count(w, m) * Amount(n)
    decreases m
  {
    hide Amount;
    if m > 0 {
      WorthPerCoin(w, m - 1, n);
      AmountsAscend(m - 1, n);
      MulMore(w[m - 1], Amount(m - 1), Amount(n));
      MulSplit(Count(w, m - 1), w[m - 1], Amount(n));
    }
  }

  lemma MulMore(a: nat, v: int, w: int)
    requires v <= w
    ensures a * v <= a * w
  {}

  /**
   Largest first is complete: coins below rank `n` that sum to `r` and are within `h` exist only if
   the sweep finds some.  The coins beyond those of `u` that the sweep takes at the top are traded
   for lower ones.
   */
  lemma {:induction false} SweepComplete(h: Tally, r: int, n: nat, u: Tally)
    requires n <= DENOMS && Worth(u, n) == r && forall i :: 0 <= i < n ==> u[i] <= h[i]
    ensures Worth(Sweep(Exact, h, r, n), n) == r
    decreases n
  {
    hide Amount, Fit, Sweep;
    if n == 0 {
      NothingIsBelow(Sweep(Exact, h, r, 0));
    } else {
      var v := Amount(n - 1);
      var k := Fit(Exact, h[n - 1], r, v);
      TakesMost(h, r, n, u);
      FitCost(h[n - 1], r, v);
      SweepStep(Exact, h, r, n);
      Difference(r, k, u[n - 1], v, Worth(u, n - 1));
      hide Worth;
      var d := Reduced(u, n - 1, k - u[n - 1]);
      SweepComplete(h, r - k * v, n - 1, d);
    }
  }

  /** And it is thrifty: no coins of the same value within `h` are fewer. */
  lemma {:induction false} SweepThrifty(h: Tally, r: int, n: nat, u: Tally)
    requires n <= DENOMS && Worth(u, n) == r && forall i :: 0 <= i < n ==> u[i] <= h[i]
    ensures Count(Sweep(Exact, h, r, n), n) <= Count(u, n)
    decreases n
  {
    hide Amount, Fit, Sweep;
    if n == 0 {
      NothingIsBelow(Sweep(Exact, h, r, 0));
    } else {
      var v := Amount(n - 1);
      var k := Fit(Exact, h[n - 1], r, v);
      TakesMost(h, r, n, u);
      FitCost(h[n - 1], r, v);
      SweepStep(Exact, h, r, n);
      TopStep(u, n);
      Difference(r, k, u[n - 1], v, Worth(u, n - 1));
      hide Worth, Count;
      var d := Reduced(u, n - 1, k - u[n - 1]);
      SweepThrifty(h, r - k * v, n - 1, d);
    }
  }

  lemma KTakes(k: nat, r: int, v: nat)
    requires k > 0 ==> Exact.Takes(r - (k - 1) * v, v)
    requires r >= 0
    ensures k * v <= r
  {
    MulSplit(k - 1, 1, v);
  }

  /** Within the coins held, the sweep pays exactly if and only if some choice of coins does. */
  lemma ExactIffPossible(h: Tally, r: int)
    ensures Worth(Sweep(Exact, h, r, DENOMS), DENOMS) == r <==>
      exists u: Tally :: Within(u, h) && Worth(u, DENOMS) == r
  {
    SweepBounds(Exact, h, r, DENOMS);
    if u: Tally :| Within(u, h) && Worth(u, DENOMS) == r {
      SweepComplete(h, r, DENOMS, u);
    }
  }

  ///////////////////////////////////////////////////////////////////////////////////////////////
  // Paying too much
  ///////////////////////////////////////////////////////////////////////////////////////////////

  /**
   A sweep that goes on while anything is left uses a coin only when all larger ones are used, and stops in time:
   without its smallest coin it would not pay.
   */
  lemma {:induction false} OverIsTight(h: Tally, r: int, n: nat, d: nat)
    requires d < n <= DENOMS && Sweep(Over, h, r, n)[d] > 0
    requires forall i :: 0 <= i < d ==> Sweep(Over, h, r, n)[i] == 0
    ensures Worth(Sweep(Over, h, r, n), n) - Amount(d) < r
    ensures forall i :: d < i < n ==> Sweep(Over, h, r, n)[i] == h[i]
    decreases n
  {
    hide Amount, Fit, Sweep;
    var v := Amount(n - 1);
    var k := Fit(Over, h[n - 1], r, v);
    FitBounds(Over, h[n - 1], r, v);
    SweepStep(Over, h, r, n);
    if d == n - 1 {
      NoneBelow(Sweep(Over, h, r, n), d);
      TopStep(Sweep(Over, h, r, n), n);
      MulSplit(k - 1, 1, v);
    } else {
      var lower := Sweep(Over, h, r - k * v, n - 1);
      assert forall i :: 0 <= i < n - 1 ==> lower[i] == Sweep(Over, h, r, n)[i];
      if r - k * v <= 0 {
        SweepNegative(Over, h, r - k * v, n - 1);
      } else {
        OverIsTight(h, r - k * v, n - 1, d);
      }
    }
  }

  lemma {:induction false} NoneBelow(u: Tally, n: nat)
    requires n <= DENOMS && forall i :: 0 <= i < n ==> u[i] == 0
    ensures Worth(u, n) == 0 && Count(u, n) == 0
    decreases n
  {
    if n > 0 {
      NoneBelow(u, n - 1);
    }
  }

  ///////////////////////////////////////////////////////////////////////////////////////////////
  // Change
  ///////////////////////////////////////////////////////////////////////////////////////////////

  /** With coins to spare, what is left after one denomination is less than one of its coins. */
  lemma FitFree(limit: nat, r: nat, v: nat)
    requires limit >= r && v > 0
    ensures 0 <= r - Fit(Exact, limit, r, v) * v < v
  {
    FitBounds(Exact, limit, r, v);
    var k := Fit(Exact, limit, r, v);
    KTakes(k, r, v);
    if k == limit {
      MulLe(r, k, v);
      MulLe(1, v, r);
    }
  }

  lemma QuotientUnique(j: int, k: int, r: int, v: nat)
    requires 0 <= r - j * v < v && 0 <= r - k * v < v
    ensures j == k
  {
    if j < k {
      MulLe(j + 1, k, v);
      MulSplit(j, 1, v);
    } else if k < j {
      MulLe(k + 1, j, v);
      MulSplit(k, 1, v);
    }
  }

  lemma {:induction false} SweepRemainder(h: Tally, r: nat, n: nat)
    requires n <= DENOMS && forall i :: 0 <= i < n ==> h[i] >= r
    ensures 0 <= r - Worth(Sweep(Exact, h, r, n), n)
    ensures n > 0 ==> r - Worth(Sweep(Exact, h, r, n), n) < Amount(0)
    decreases n
  {
    hide Amount;
    if n > 0 {
      var v := Amount(n - 1);
      FitFree(h[n - 1], r, v);
      SweepStep(Exact, h, r, n);
      SweepRemainder(h, r - Fit(Exact, h[n - 1], r, v) * v, n - 1);
    }
  }

  lemma {:induction false} SweepNegative(mode: Mode, h: Tally, r: int, n: nat)
    requires n <= DENOMS && r <= 0
    ensures Sweep(mode, h, r, n) == NONE
    decreases n
  {
    if n > 0 {
      SweepNegative(mode, h, r, n - 1);
    }
  }

  /** Change is worth the value asked for, up to a remainder below the smallest denomination. */
  lemma ChangeConserves(r: int)
    ensures r >= 0 ==> 0 <= r - Worth(Change(r), DENOMS) < COIN
    ensures r <= 0 ==> Change(r) == NONE
  {
    if r >= 0 {
      SweepRemainder(Plenty(r), r, DENOMS);
    }
    if r <= 0 {
      SweepNegative(Exact, Plenty(r), r, DENOMS);
    }
  }

  /** Adding a multiple of a denomination to a value costs at least two lower coins for each. */
  lemma CountShift(h: Tally, r: nat, n: nat, q: nat)
    requires 0 < n < DENOMS && forall i :: 0 <= i < n ==> h[i] >= r + q * Amount(n)
    ensures Count(Sweep(Exact, h, r + q * Amount(n), n), n) >= Count(Sweep(Exact, h, r, n), n) + 2 * q
  {
    hide Amount, Ratio;
    var v, p := Amount(n - 1), q * Ratio(n - 1);
    var r' := r + q * Amount(n);
    MulAssoc(q, Ratio(n - 1), v);
    var j, k := Fit(Exact, h[n - 1], r, v), Fit(Exact, h[n - 1], r', v);
    FitFree(h[n - 1], r, v);
    FitFree(h[n - 1], r', v);
    MulSplit(j, p, v);
    QuotientUnique(j + p, k, r', v);
    assert r' - k * v == r - j * v;
    SweepStep(Exact, h, r, n);
    SweepStep(Exact, h, r', n);
    MulLe(2, Ratio(n - 1), q);
  }

  lemma TopStep(u: Tally, n: nat)
    requires 0 < n <= DENOMS
    ensures Worth(u, n) == Worth(u, n - 1) + u[n - 1] * Amount(n - 1) && Count(u, n) == Count(u, n - 1) + u[n - 1]
  {}

  lemma {:induction false} SweepFewest(h: Tally, r: nat, n: nat, u: Tally)
    requires n <= DENOMS && forall i :: 0 <= i < n ==> h[i] >= r
    requires r - Amount(0) < Worth(u, n) <= r
    ensures Count(u, n) >= Count(Sweep(Exact, h, r, n), n)
    ensures Count(u, n) == Count(Sweep(Exact, h, r, n), n) ==>
      forall i :: 0 <= i < n ==> u[i] == Sweep(Exact, h, r, n)[i]
    decreases n
  {
    hide Amount, Fit, Sweep, Worth, Count;
    if n == 0 {
      NothingIsBelow(u);
      NothingIsBelow(Sweep(Exact, h, r, 0));
    } else {
      var v := Amount(n - 1);
      var a, k := u[n - 1], Fit(Exact, h[n - 1], r, v);
      FitFree(h[n - 1], r, v);
      SweepStep(Exact, h, r, n);
      TopStep(u, n);
      TopAtMost(a, k, r, v);
      SweepFewest(h, r - a * v, n - 1, u);
      MulSplit(k - a, a, v);
      if n == 1 {
        NothingIsBelow(u);
        QuotientUnique(a, k, r, v);
      } else {
        CountShift(h, r - k * v, n - 1, k - a);
      }
    }
  }

  lemma TopAtMost(a: nat, k: nat, r: nat, v: nat)
    requires a * v <= r && r - k * v < v
    ensures a <= k
  {
    if k < a {
      MulLe(k + 1, a, v);
      MulSplit(k, 1, v);
    }
  }

  /** No other coins of the same value are as few as the change given. */
  lemma ChangeIsFewest(r: int, u: Tally)
    requires Worth(u, DENOMS) == Worth(Change(r), DENOMS)
    ensures Count(u, DENOMS) >= Count(Change(r), DENOMS)
    ensures Count(u, DENOMS) == Count(Change(r), DENOMS) ==> u == Change(r)
  {
    ChangeConserves(r);
    if r >= 0 {
      SweepFewest(Plenty(r), r, DENOMS, u);
    } else {
      NothingIsWorthless(DENOMS);
      ChangeConserves(0);
      SweepFewest(Plenty(0), 0, DENOMS, u);
    }
  }
}
