/** Amount compression (compressor.cpp): trailing zeros become an exponent; 64-bit arithmetic wraps. */
module Amounts {
  import opened Digits

  const UINT64_RANGE := 0x1_0000_0000_0000_0000
  const MAX_MONEY := 1_000_000_000_000_000_000

  function Wrap(x: nat): nat {
    x % UINT64_RANGE
  }

  function ToInt64(x: nat): (r: int)
    ensures x < UINT64_RANGE ==> -UINT64_RANGE <= 2 * r < UINT64_RANGE && (r == x || r + UINT64_RANGE == x)
  {
    if x < UINT64_RANGE / 2 then x else x - UINT64_RANGE
  }

  /** Compression once e trailing zeros are stripped, over unbounded integers. */
  function CompressFrom(n: nat, e: nat): nat
    requires n > 0 && e <= 9
    decreases 9 - e
  {
    if n % 10 == 0 && e < 9 then CompressFrom(n / 10, e + 1)
    else if e < 9 then 1 + (n / 10 * 9 + n % 10 - 1) * 10 + e
    else 1 + (n - 1) * 10 + 9
  }

  function Compressed(n: nat): nat {
    if n == 0 then 0 else CompressFrom(n, 0)
  }

  /** The significant digits and the number of zeros a nonzero compressed amount stands for. */
  function Mantissa(x: nat): nat
    requires x > 0
  {
    var (e, y) := ((x - 1) % 10, (x - 1) / 10);
    if e < 9 then y / 9 * 10 + y % 9 + 1 else y + 1
  }

  function Exponent(x: nat): (e: nat)
    requires x > 0
    ensures e <= 9
  {
    (x - 1) % 10
  }

  function Decompressed(x: nat): nat {
    if x == 0 then 0 else Mantissa(x) * Pow(10, Exponent(x))
  }

  /** At most 9 zeros are stripped, and fewer only when the next digit is not a zero. */
  predicate Stripped(n: nat, e: nat) {
    n > 0 && e <= 9 && (e < 9 ==> n % 10 != 0)
  }

  lemma StrippedCodes(n: nat, e: nat)
    requires Stripped(n, e)
    ensures CompressFrom(n, e) > 0
    ensures Mantissa(CompressFrom(n, e)) == n && Exponent(CompressFrom(n, e)) == e
  {
    if e < 9 {
      var y := n / 10 * 9 + (n % 10 - 1);
      assert CompressFrom(n, e) - 1 == y * 10 + e;
      DivModOf(y, e, 10);
      DivModOf(n / 10, n % 10 - 1, 9);
    }
  }

  lemma {:induction false} CompressFromUndone(n: nat, e: nat)
    requires n > 0 && e <= 9
    ensures CompressFrom(n, e) > 0 && Decompressed(CompressFrom(n, e)) == n * Pow(10, e)
    decreases 9 - e
  {
    if n % 10 == 0 && e < 9 {
      CompressFromUndone(n / 10, e + 1);
      MulSwap(n / 10, 10, Pow(10, e));
    } else {
      StrippedCodes(n, e);
    }
  }

  /** Decompression undoes compression. */
  lemma CompressUndone(n: nat)
    ensures Decompressed(Compressed(n)) == n
  {
    if n > 0 {
      CompressFromUndone(n, 0);
      assert Pow(10, 0) == 1;
    }
  }

  lemma {:induction false} CompressShifted(n: nat, k: nat, e: nat)
    requires n > 0 && k + e <= 9
    ensures n * Pow(10, k) > 0 && CompressFrom(n * Pow(10, k), e) == CompressFrom(n, e + k)
    decreases k
  {
    if k > 0 {
      hide CompressFrom;
      assert Pow(10, k) == 10 * Pow(10, k - 1);
      hide Pow;
      CompressShifted(n, k - 1, e + 1);
      TimesTen(n, Pow(10, k - 1));
      OneZero(n * Pow(10, k - 1), e);
    }
  }

  lemma TimesTen(n: nat, p: nat)
    ensures n * (10 * p) == 10 * (n * p)
  {}

  lemma OneZero(m: nat, e: nat)
    requires m > 0 && e < 9
    ensures 10 * m > 0 && CompressFrom(10 * m, e) == CompressFrom(m, e + 1)
  {
    assert 10 * m % 10 == 0 && 10 * m / 10 == m;
  }

  /** Compression undoes decompression: every number is the compressed form of exactly one amount. */
  lemma DecompressUndone(x: nat)
    ensures Compressed(Decompressed(x)) == x
  {
    if x > 0 {
      var (n, e) := (Mantissa(x), Exponent(x));
      CompressShifted(n, e, 0);
      MantissaIsStripped(x);
    }
  }

  lemma MantissaIsStripped(x: nat)
    requires x > 0
    ensures Stripped(Mantissa(x), Exponent(x)) && CompressFrom(Mantissa(x), Exponent(x)) == x
  {
    var (e, y) := ((x - 1) % 10, (x - 1) / 10);
    assert x == 1 + y * 10 + e;
    if e < 9 {
      var n := Mantissa(x);
      assert n == y / 9 * 10 + (y % 9 + 1);
      assert n / 10 == y / 9 && n % 10 == y % 9 + 1;
    }
  }

  lemma {:induction false} CompressBound(n: nat, e: nat)
    requires n > 0 && e <= 9
    ensures CompressFrom(n, e) <= 9 * n + 10 * (9 - e) + e || (e == 9 && CompressFrom(n, e) == 10 * n)
    decreases 9 - e
  {
    if n % 10 == 0 && e < 9 {
      CompressBound(n / 10, e + 1);
    }
  }

  /** No step of compression wraps for any amount of money that can exist. */
  lemma CompressFits(n: nat)
    requires n <= MAX_MONEY
    ensures Compressed(n) < UINT64_RANGE && Wrap(Compressed(n)) == Compressed(n)
  {
    hide CompressFrom, Wrap;
    if n > 0 {
      CompressBound(n, 0);
    }
    WrapSmall(Compressed(n));
  }

  lemma WrapSmall(x: nat)
    ensures x < UINT64_RANGE ==> Wrap(x) == x
  {}

  /** The 64-bit method wraps only in its last step. */
  method CompressAmount(amount: nat) returns (x: nat)
    requires amount < UINT64_RANGE
    ensures x == Wrap(Compressed(amount))
  {
    if amount == 0 {
      return 0;
    }
    assert Compressed(amount) == CompressFrom(amount, 0);
    hide CompressFrom, Compressed, Wrap;
    var n, e: nat := amount, 0;
    while n % 10 == 0 && e < 9
      invariant 0 < n <= amount && e <= 9 && CompressFrom(amount, 0) == CompressFrom(n, e)
      decreases 9 - e
    {
      n := n / 10;
      e := e + 1;
    }
    if e < 9 {
      var d := n % 10;
      assert 1 <= d <= 9;
      n := n / 10;
      x := Wrap(1 + (n * 9 + d - 1) * 10 + e);
    } else {
      x := Wrap(1 + (n - 1) * 10 + 9);
    }
  }

  lemma WrapTimesTen(a: nat)
    ensures Wrap(Wrap(a) * 10) == Wrap(a * 10)
  {
    var q, r := a / UINT64_RANGE, a % UINT64_RANGE;
    assert a * 10 == r * 10 + q * 10 * UINT64_RANGE;
    AddMultiple(r * 10, q * 10, UINT64_RANGE);
  }

  method DecompressAmount(compressed: nat) returns (n: nat)
    requires compressed < UINT64_RANGE
    ensures n == Wrap(Decompressed(compressed))
  {
    if compressed == 0 {
      return 0;
    }
    var x := compressed - 1;
    var e := x % 10;
    x := x / 10;
    if e < 9 {
      var d := (x % 9) + 1;
      x := x / 9;
      n := x * 10 + d;
    } else {
      n := x + 1;
    }
    assert n == Mantissa(compressed) && n <= compressed;
    assert Decompressed(compressed) == Mantissa(compressed) * Pow(10, Exponent(compressed));
    assert e == Exponent(compressed) && Pow(10, 0) == 1;
    WrapSmall(n);
    ghost var m: nat := n;
    ghost var k: nat := 0;
    hide Mantissa, Exponent, Decompressed, Wrap;
    while e > 0
      invariant 0 <= e && k + e == Exponent(compressed)
      invariant m == Mantissa(compressed) * Pow(10, k) && n == Wrap(m)
    {
      MulSwap(Mantissa(compressed), 10, Pow(10, k));
      MulSwap(10, Mantissa(compressed), Pow(10, k));
      WrapTimesTen(m);
      n := Wrap(n * 10);
      m := m * 10;
      e := e - 1;
      k := k + 1;
    }
  }

  /** In 64 bits too, every amount of money survives the round trip. */
  method AmountRoundTrip(amount: nat) returns (back: nat)
    requires amount <= MAX_MONEY
    ensures back == amount
  {
    var x := CompressAmount(amount);
    CompressFits(amount);
    CompressUndone(amount);
    back := DecompressAmount(x);
  }
}
