/** Numbers in positional notation, most significant digit first. */
module Digits {

  function Pow(b: nat, e: nat): nat {
    if e == 0 then 1 else b * Pow(b, e - 1)
  }

  /** The value of a sequence of digits. */
  function Num(b: nat, ds: seq<nat>): nat {
    if ds == [] then 0 else Num(b, ds[..|ds| - 1]) * b + ds[|ds| - 1]
  }

  ghost predicate Below(b: nat, ds: seq<nat>) {
    forall i :: 0 <= i < |ds| ==> ds[i] < b
  }

  /** No leading zero. */
  predicate Proper(ds: seq<nat>) {
    ds != [] ==> ds[0] != 0
  }

  /** The proper notation of a number. */
  function Repr(b: nat, n: nat): seq<nat>
    requires b >= 2
  {
    if n == 0 then [] else DivSmaller(n, b); Repr(b, n / b) + [n % b]
  }

  lemma DivSmaller(n: nat, b: nat)
    requires n > 0 && b >= 2
    ensures n / b < n && n == (n / b) * b + n % b && 0 <= n % b < b
  {}

  ///////////////////////////////////////////////////////////////////////////////////////////////
  // Powers
  ///////////////////////////////////////////////////////////////////////////////////////////////

  lemma MulMono(a: nat, b: nat, c: nat, d: nat)
    requires a <= b && c <= d
    ensures a * c <= b * d
  {
    assert a * c <= b * c <= b * d;
  }

  lemma {:induction false} PowPositive(b: nat, e: nat)
    requires b > 0
    ensures Pow(b, e) > 0
  {
    if e > 0 {
      PowPositive(b, e - 1);
      MulMono(1, b, 1, Pow(b, e - 1));
    }
  }

  lemma MulSwap(a: int, b: int, c: int)
    ensures a * (b * c) == (a * b) * c && a * b == b * a
  {}

  lemma Distribute(a: int, b: int, c: int)
    ensures (a + b) * c == a * c + b * c
  {}

  lemma {:induction false} PowAdd(b: nat, m: nat, n: nat)
    ensures Pow(b, m + n) == Pow(b, m) * Pow(b, n)
    decreases m
  {
    if m > 0 {
      PowAdd(b, m - 1, n);
      MulSwap(b, Pow(b, m - 1), Pow(b, n));
    }
  }

  lemma {:induction false} PowPow(b: nat, m: nat, n: nat)
    ensures Pow(Pow(b, m), n) == Pow(b, m * n)
    decreases n
  {
    if n > 0 {
      PowPow(b, m, n - 1);
      PowAdd(b, m, m * (n - 1));
      assert m + m * (n - 1) == m * n;
    }
  }

  lemma {:induction false} PowMonoBase(a: nat, b: nat, e: nat)
    requires a <= b
    ensures Pow(a, e) <= Pow(b, e)
    decreases e
  {
    if e > 0 {
      PowMonoBase(a, b, e - 1);
      MulMono(a, b, Pow(a, e - 1), Pow(b, e - 1));
    }
  }

  lemma {:induction false} PowStrictBase(a: nat, b: nat, e: nat)
    requires a < b && e > 0
    ensures Pow(a, e) < Pow(b, e)
    decreases e
  {
    PowMonoBase(a, b, e - 1);
    PowPositive(b, e - 1);
    var x, y := Pow(a, e - 1), Pow(b, e - 1);
    MulMono(a, a, x, y);
    assert (b - a) * y > 0 by { MulMono(1, b - a, 1, y); }
    assert b * y == a * y + (b - a) * y;
  }

  lemma PowMonoExp(b: nat, m: nat, n: nat)
    requires b > 0 && m <= n
    ensures Pow(b, m) <= Pow(b, n)
  {
    PowAdd(b, m, n - m);
    PowPositive(b, n - m);
    MulMono(Pow(b, m), Pow(b, m), 1, Pow(b, n - m));
  }

  lemma PowCommute(a: nat, m: nat, n: nat)
    ensures Pow(Pow(a, m), n) == Pow(Pow(a, n), m)
  {
    hide Pow;
    PowPow(a, m, n);
    PowPow(a, n, m);
    MulSwap(m, n, 1);
  }

  lemma PowPowMono(b: nat, q: nat, n: nat, k: nat, p: nat)
    requires b > 0 && q * n <= k * p
    ensures Pow(Pow(b, q), n) <= Pow(Pow(b, k), p)
  {
    hide Pow;
    PowPow(b, q, n);
    PowPow(b, k, p);
    PowMonoExp(b, q * n, k * p);
  }

  /** Comparing powers of two bases by comparing the exponents with one known pair of powers. */
  lemma {:induction false} ComparePowers(a: nat, p: nat, b: nat, q: nat, n: nat, k: nat)
    requires Pow(a, p) < Pow(b, q) && b > 0 && n > 0 && q * n <= k * p
    ensures Pow(a, n) < Pow(b, k)
  {
    hide Pow;
    PowCommute(a, n, p);
    PowStrictBase(Pow(a, p), Pow(b, q), n);
    PowPowMono(b, q, n, k, p);
    if Pow(a, n) >= Pow(b, k) {
      PowMonoBase(Pow(b, k), Pow(a, n), p);
    }
  }

  ///////////////////////////////////////////////////////////////////////////////////////////////
  // Notation
  ///////////////////////////////////////////////////////////////////////////////////////////////

  lemma {:induction false} NumConcat(b: nat, x: seq<nat>, y: seq<nat>)
    ensures Num(b, x + y) == Num(b, x) * Pow(b, |y|) + Num(b, y)
    decreases y
  {
    if y == [] {
      assert x + y == x;
    } else {
      var y', d := y[..|y| - 1], y[|y| - 1];
      assert (x + y)[..|x + y| - 1] == x + y';
      NumConcat(b, x, y');
      var p, v := Num(b, x), Pow(b, |y'|);
      assert (p * v + Num(b, y')) * b == p * v * b + Num(b, y') * b;
      MulSwap(p, v, b);
      MulSwap(b, v, 1);
    }
  }

  lemma NumCons(b: nat, d: nat, y: seq<nat>)
    ensures Num(b, [d] + y) == d * Pow(b, |y|) + Num(b, y)
  {
    NumConcat(b, [d], y);
    assert [d][..0] == [];
    assert Num(b, [d]) == d;
  }

  lemma {:induction false} NumBound(b: nat, ds: seq<nat>)
    requires b > 0 && Below(b, ds)
    ensures Num(b, ds) < Pow(b, |ds|)
    decreases ds
  {
    if ds != [] {
      NumBound(b, ds[..|ds| - 1]);
      MulMono(Num(b, ds[..|ds| - 1]) + 1, Pow(b, |ds| - 1), b, b);
      assert (Num(b, ds[..|ds| - 1]) + 1) * b == Num(b, ds[..|ds| - 1]) * b + b;
    }
  }

  lemma {:induction false} ReprIsProper(b: nat, n: nat)
    requires b >= 2
    ensures Num(b, Repr(b, n)) == n && Below(b, Repr(b, n)) && Proper(Repr(b, n)) && (Repr(b, n) == [] <==> n == 0)
    decreases n
  {
    if n > 0 {
      DivSmaller(n, b);
      ReprIsProper(b, n / b);
      var q, d := n / b, n % b;
      var r := Repr(b, n);
      assert r == Repr(b, q) + [d];
      hide Repr;
      assert r[..|r| - 1] == Repr(b, q);
    }
  }

  lemma DivModOf(q: nat, d: nat, b: nat)
    requires d < b
    ensures (q * b + d) / b == q && (q * b + d) % b == d
  {
    var n := q * b + d;
    assert n == (n / b) * b + n % b;
    assert (n / b - q) * b == d - n % b;
    if n / b > q {
      MulMono(1, n / b - q, b, b);
    } else if n / b < q {
      MulMono(n / b + 1, q, b, b);
    }
  }

  lemma {:induction false} ProperIsRepr(b: nat, ds: seq<nat>)
    requires b >= 2 && Below(b, ds) && Proper(ds)
    ensures Repr(b, Num(b, ds)) == ds
    decreases ds
  {
    if ds != [] {
      var rest, d := ds[..|ds| - 1], ds[|ds| - 1];
      ProperIsRepr(b, rest);
      DivModOf(Num(b, rest), d, b);
      ReprIsProper(b, Num(b, rest));
      assert Num(b, ds) > 0 by {
        if rest != [] {
          MulMono(1, Num(b, rest), 1, b);
        }
      }
      assert ds == rest + [d];
    }
  }

  /** The number of leading zeros. */
  function Zeros(ds: seq<nat>): (z: nat)
    ensures z <= |ds| && (forall i :: 0 <= i < z ==> ds[i] == 0) && Proper(ds[z..])
  {
    if ds == [] || ds[0] != 0 then 0
    else
      assert ds[1..][Zeros(ds[1..])..] == ds[1 + Zeros(ds[1..])..];
      1 + Zeros(ds[1..])
  }

  lemma {:induction false} NumIgnoresZeros(b: nat, ds: seq<nat>, z: nat)
    requires z <= |ds| && forall i :: 0 <= i < z ==> ds[i] == 0
    ensures Num(b, ds[z..]) == Num(b, ds)
    decreases z
  {
    if z == 0 {
      assert ds[0..] == ds;
    } else {
      NumIgnoresZeros(b, ds, z - 1);
      NumCons(b, ds[z - 1], ds[z..]);
      assert ds[z - 1..] == [ds[z - 1]] + ds[z..];
    }
  }

  /** Stripping the leading zeros of any notation gives the proper one. */
  lemma {:induction false} StripIsRepr(b: nat, ds: seq<nat>, z: nat)
    requires b >= 2 && Below(b, ds) && z <= |ds| && (forall i :: 0 <= i < z ==> ds[i] == 0) && Proper(ds[z..])
    ensures ds[z..] == Repr(b, Num(b, ds))
  {
    NumIgnoresZeros(b, ds, z);
    ProperIsRepr(b, ds[z..]);
  }

  ///////////////////////////////////////////////////////////////////////////////////////////////
  // Single bits
  ///////////////////////////////////////////////////////////////////////////////////////////////

  /** Whether the bit of weight m is set. */
  predicate Bit(x: nat, m: nat)
    requires m > 0
  {
    (x / m) % 2 == 1
  }

  lemma AddMultiple(x: nat, q: nat, m: nat)
    requires m > 0
    ensures (x + q * m) / m == x / m + q && (x + q * m) % m == x % m
  {
    var (d, r) := (x / m, x % m);
    assert x == d * m + r by { MulSwap(m, d, 1); }
    Distribute(d, q, m);
    DivModOf(d + q, r, m);
  }

  lemma AddEven(x: nat, h: nat, m: nat)
    requires m > 0
    ensures Bit(x + 2 * h * m, m) <==> Bit(x, m)
  {
    AddMultiple(x, 2 * h, m);
  }

  lemma PowSplit(p: nat, k: nat)
    requires p < k
    ensures Pow(2, k) == 2 * Pow(2, k - p - 1) * Pow(2, p)
  {
    PowAdd(2, k - p, p);
  }

  lemma HighBit(x: nat, p: nat, k: nat)
    requires p < k
    ensures Pow(2, p) > 0 && (Bit(x + Pow(2, k), Pow(2, p)) <==> Bit(x, Pow(2, p)))
  {
    hide Pow, Bit;
    PowPositive(2, p);
    PowSplit(p, k);
    AddEven(x, Pow(2, k - p - 1), Pow(2, p));
  }

  lemma TopBit(x: nat, m: nat)
    requires x < m
    ensures !Bit(x, m) && Bit(x + m, m)
  {
    DivModOf(0, x, m);
    DivModOf(1, x, m);
  }
}
