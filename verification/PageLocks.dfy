/** Reference counts that make page locks stack (LockedPageManagerBase in allocators.h). */
module PageLocks {
  import opened Bytes
  import opened Digits

  /** The number of addresses a size_t can hold. */
  const ADDRESSES: nat := 0x1_0000_0000_0000_0000

  datatype Range = Range(base: nat, size: nat)

  /** The address with its offset in the page masked out. */
  function PageOf(address: nat, pageSize: nat): nat
    requires pageSize > 0
  {
    address - address % pageSize
  }

  /** The pages from the first to the last byte of a range. */
  predicate Touches(r: Range, page: nat, pageSize: nat)
    requires pageSize > 0
  {
    r.size > 0 && page % pageSize == 0 && PageOf(r.base, pageSize) <= page <= PageOf(r.base + r.size - 1, pageSize)
  }

  lemma PageFacts(a: nat, pageSize: nat)
    requires pageSize > 0
    ensures PageOf(a, pageSize) % pageSize == 0 && PageOf(a, pageSize) <= a < PageOf(a, pageSize) + pageSize
  {
    var q := a / pageSize;
    assert a == q * pageSize + a % pageSize;
    DivModOf(q, 0, pageSize);
  }

  /** Two page addresses less than a page apart are the same. */
  lemma SamePage(p: nat, q: nat, pageSize: nat)
    requires pageSize > 0 && p % pageSize == 0 && q % pageSize == 0 && p <= q < p + pageSize
    ensures p == q
  {
    var (i, j) := (p / pageSize, q / pageSize);
    assert p == i * pageSize && q == j * pageSize;
    if i < j {
      MulMono(i + 1, j, pageSize, pageSize);
      Distribute(i, 1, pageSize);
    } else if j < i {
      MulMono(j + 1, i, pageSize, pageSize);
      Distribute(j, 1, pageSize);
    }
  }

  lemma NextPage(p: nat, pageSize: nat)
    requires pageSize > 0 && p % pageSize == 0
    ensures (p + pageSize) % pageSize == 0
  {
    var i := p / pageSize;
    assert p == i * pageSize;
    Distribute(i, 1, pageSize);
    DivModOf(i + 1, 0, pageSize);
  }

  /** A range touches a page exactly when one of its bytes lies in the page. */
  lemma TouchesMeans(r: Range, page: nat, pageSize: nat)
    requires pageSize > 0
    ensures Touches(r, page, pageSize) <==> exists a :: r.base <= a < r.base + r.size && PageOf(a, pageSize) == page
  {
    PageFacts(r.base, pageSize);
    if Touches(r, page, pageSize) {
      var last := r.base + r.size - 1;
      PageFacts(last, pageSize);
      var a := if page < r.base then r.base else page;
      PageFacts(a, pageSize);
      if page < r.base {
        SamePage(PageOf(r.base, pageSize), page, pageSize);
      } else {
        SamePage(PageOf(a, pageSize), page, pageSize);
      }
    }
    if a :| r.base <= a < r.base + r.size && PageOf(a, pageSize) == page {
      PageFacts(a, pageSize);
      PagesOrdered(r.base, a, pageSize);
      PagesOrdered(a, r.base + r.size - 1, pageSize);
    }
  }

  lemma PagesOrdered(a: nat, b: nat, pageSize: nat)
    requires pageSize > 0 && a <= b
    ensures PageOf(a, pageSize) <= PageOf(b, pageSize)
  {
    PageFacts(a, pageSize);
    PageFacts(b, pageSize);
    if PageOf(b, pageSize) < PageOf(a, pageSize) {
      SamePage(PageOf(b, pageSize), PageOf(a, pageSize), pageSize);
    }
  }

  /** How many of the live ranges touch a page. */
  function Count(live: seq<Range>, page: nat, pageSize: nat): nat
    requires pageSize > 0
  {
    if live == [] then 0
    else Count(live[..|live| - 1], page, pageSize) + if Touches(live[|live| - 1], page, pageSize) then 1 else 0
  }

  lemma {:induction false} CountConcat(a: seq<Range>, b: seq<Range>, page: nat, pageSize: nat)
    requires pageSize > 0
    ensures Count(a + b, page, pageSize) == Count(a, page, pageSize) + Count(b, page, pageSize)
    decreases b
  {
    if b == [] {
      assert a + b == a;
    } else {
      assert (a + b)[..|a + b| - 1] == a + b[..|b| - 1];
      CountConcat(a, b[..|b| - 1], page, pageSize);
    }
  }

  /** One live range, taken out wherever it is. */
  lemma CountWithout(live: seq<Range>, i: nat, page: nat, pageSize: nat)
    requires pageSize > 0 && i < |live|
    ensures Count(live, page, pageSize) ==
            Count(live[..i] + live[i + 1..], page, pageSize) + if Touches(live[i], page, pageSize) then 1 else 0
  {
    assert live == live[..i] + ([live[i]] + live[i + 1..]);
    CountConcat(live[..i], [live[i]] + live[i + 1..], page, pageSize);
    CountConcat([live[i]], live[i + 1..], page, pageSize);
    CountConcat(live[..i], live[i + 1..], page, pageSize);
  }

  ///////////////////////////////////////////////////////////////////////////////////////////////
  // When the loops end
  ///////////////////////////////////////////////////////////////////////////////////////////////

  /** The page variable after k steps of `page += page_size`, which wraps. */
  function PageAfter(first: nat, k: nat, pageSize: nat): nat {
    (first + k * pageSize) % ADDRESSES
  }

  /** The loop over the pages of a range comes to its end: some page is past the last one. */
  ghost predicate LoopEnds(r: Range, pageSize: nat)
    requires pageSize > 0 && r.size > 0
  {
    exists k: nat :: PageAfter(PageOf(r.base, pageSize), k, pageSize) > PageOf(r.base + r.size - 1, pageSize)
  }

  lemma LastPage(pageSize: nat)
    requires pageSize > 0 && ADDRESSES % pageSize == 0
    ensures pageSize <= ADDRESSES && (ADDRESSES - pageSize) % pageSize == 0
  {
    var q := ADDRESSES / pageSize;
    assert ADDRESSES == q * pageSize;
    Distribute(q - 1, 1, pageSize);
    MulMono(1, q, pageSize, pageSize);
    DivModOf(q - 1, 0, pageSize);
  }

  lemma MultipleOf(p: nat, k: nat, pageSize: nat)
    requires pageSize > 0 && p % pageSize == 0
    ensures (p + k * pageSize) % pageSize == 0
  {
    var i := p / pageSize;
    assert p == i * pageSize;
    Distribute(i, k, pageSize);
    DivModOf(i + k, 0, pageSize);
  }

  lemma MinusMultiple(i: nat, j: nat, rest: nat, pageSize: nat)
    requires pageSize > 0 && i * pageSize == j * pageSize + rest
    ensures rest % pageSize == 0
  {
    if i < j {
      MulMono(i + 1, j, pageSize, pageSize);
      Distribute(i, 1, pageSize);
    }
    Distribute(i - j, j, pageSize);
    DivModOf(i - j, 0, pageSize);
  }

  lemma WrappedMultiple(n: nat, pageSize: nat)
    requires pageSize > 0 && ADDRESSES % pageSize == 0 && n % pageSize == 0
    ensures n % ADDRESSES % pageSize == 0
  {
    var (w, q, i) := (ADDRESSES / pageSize, n / ADDRESSES, n / pageSize);
    assert ADDRESSES == w * pageSize && n == i * pageSize;
    assert n == q * ADDRESSES + n % ADDRESSES;
    MulSwap(q, w, pageSize);
    MinusMultiple(i, q * w, n % ADDRESSES, pageSize);
  }

  lemma LoopNeverEnds(r: Range, pageSize: nat)
    requires pageSize > 0 && ADDRESSES % pageSize == 0 && r.size > 0 && r.base + r.size <= ADDRESSES
    requires PageOf(r.base + r.size - 1, pageSize) == ADDRESSES - pageSize
    ensures !LoopEnds(r, pageSize)
  {
    var (first, last) := (PageOf(r.base, pageSize), ADDRESSES - pageSize);
    PageFacts(r.base, pageSize);
    LastPage(pageSize);
    forall k: nat ensures PageAfter(first, k, pageSize) <= last {
      StaysBelow(first, k, pageSize);
    }
  }

  lemma StaysBelow(first: nat, k: nat, pageSize: nat)
    requires pageSize > 0 && ADDRESSES % pageSize == 0 && first % pageSize == 0
    ensures PageAfter(first, k, pageSize) <= ADDRESSES - pageSize
  {
    MultipleOf(first, k, pageSize);
    WrappedMultiple(first + k * pageSize, pageSize);
    LastPage(pageSize);
    var page := PageAfter(first, k, pageSize);
    hide PageAfter;
    assert page % pageSize == 0 && page < ADDRESSES;
    if page > ADDRESSES - pageSize {
      SamePage(ADDRESSES - pageSize, page, pageSize);
    }
  }

  lemma LoopReachesEnd(r: Range, pageSize: nat)
    requires pageSize > 0 && ADDRESSES % pageSize == 0 && r.size > 0 && r.base + r.size <= ADDRESSES
    requires PageOf(r.base + r.size - 1, pageSize) != ADDRESSES - pageSize
    ensures LoopEnds(r, pageSize)
  {
    var (first, last) := (PageOf(r.base, pageSize), PageOf(r.base + r.size - 1, pageSize));
    PageFacts(r.base, pageSize);
    PageFacts(r.base + r.size - 1, pageSize);
    PagesOrdered(r.base, r.base + r.size - 1, pageSize);
    BelowLast(last, pageSize);
    var k := (last - first) / pageSize + 1;
    StepsPast(first, last, pageSize);
    assert PageAfter(first, k, pageSize) == last + pageSize;
  }

  /** For a range inside the address space the loop ends exactly when the range stays off the last page. */
  lemma LoopEndsIff(r: Range, pageSize: nat)
    requires pageSize > 0 && ADDRESSES % pageSize == 0 && r.size > 0 && r.base + r.size <= ADDRESSES
    ensures LoopEnds(r, pageSize) <==> PageOf(r.base + r.size - 1, pageSize) != ADDRESSES - pageSize
  {
    hide LoopEnds, PageOf;
    if PageOf(r.base + r.size - 1, pageSize) == ADDRESSES - pageSize {
      LoopNeverEnds(r, pageSize);
    } else {
      LoopReachesEnd(r, pageSize);
    }
  }

  lemma BelowLast(p: nat, pageSize: nat)
    requires pageSize > 0 && ADDRESSES % pageSize == 0 && p % pageSize == 0 && p < ADDRESSES && p != ADDRESSES - pageSize
    ensures p + pageSize < ADDRESSES
  {
    LastPage(pageSize);
    if p + pageSize > ADDRESSES {
      SamePage(ADDRESSES - pageSize, p, pageSize);
    }
  }

  lemma StepsPast(first: nat, last: nat, pageSize: nat)
    requires pageSize > 0 && first % pageSize == 0 && last % pageSize == 0 && first <= last
    ensures first + ((last - first) / pageSize + 1) * pageSize == last + pageSize
  {
    var (i, j) := (first / pageSize, last / pageSize);
    assert first == i * pageSize && last == j * pageSize;
    Distribute(i, j - i, pageSize);
    if j < i {
      MulMono(j + 1, i, pageSize, pageSize);
      Distribute(j, 1, pageSize);
    }
    DivModOf(j - i, 0, pageSize);
    Distribute(j - i, 1, pageSize);
  }

  /** The shortest range for which the loops never end. */
  lemma LastByteLoops(pageSize: nat)
    requires pageSize > 0 && ADDRESSES % pageSize == 0
    ensures !LoopEnds(Range(ADDRESSES - 1, 1), pageSize) && !LoopEnds(Range(ADDRESSES - pageSize, 1), pageSize)
  {
    LastPage(pageSize);
    forall a | ADDRESSES - pageSize <= a < ADDRESSES ensures !LoopEnds(Range(a, 1), pageSize) {
      PageFacts(a, pageSize);
      BelowLastOrAt(PageOf(a, pageSize), pageSize);
      LoopNeverEnds(Range(a, 1), pageSize);
    }
  }

  lemma BelowLastOrAt(p: nat, pageSize: nat)
    requires pageSize > 0 && ADDRESSES % pageSize == 0 && p % pageSize == 0
    requires ADDRESSES - pageSize < p + pageSize && p < ADDRESSES
    ensures p == ADDRESSES - pageSize
  {
    LastPage(pageSize);
    if p != ADDRESSES - pageSize {
      BelowLast(p, pageSize);
      SamePage(p, ADDRESSES - pageSize, pageSize);
    }
  }

  function HeldBy(histogram: map<nat, nat>, page: nat): nat {
    if page in histogram then histogram[page] else 0
  }

  function DropOne(histogram: map<nat, nat>, page: nat): map<nat, nat>
    requires page in histogram
  {
    if histogram[page] <= 1 then histogram - {page} else histogram[page := histogram[page] - 1]
  }

  /** The counts after k turns of UnlockRange's loop, or none when its assertion failed. */
  function DropRun(histogram: map<nat, nat>, first: nat, k: nat, pageSize: nat): Option<map<nat, nat>> {
    if k == 0 then Some(histogram)
    else
      match DropRun(histogram, first, k - 1, pageSize)
      case None => None
      case Some(h) =>
        var page := PageAfter(first, k - 1, pageSize);
        if page in h then Some(DropOne(h, page)) else None
  }

  lemma {:induction false} DropRunShrinks(histogram: map<nat, nat>, first: nat, j: nat, k: nat, pageSize: nat, page: nat)
    requires j <= k && DropRun(histogram, first, k, pageSize).Some?
    ensures DropRun(histogram, first, j, pageSize).Some?
    ensures HeldBy(DropRun(histogram, first, k, pageSize).value, page) <= HeldBy(DropRun(histogram, first, j, pageSize).value, page)
    decreases k
  {
    if j < k {
      DropRunShrinks(histogram, first, j, k - 1, pageSize, page);
    }
  }

  /** After each round through the address space the first page comes again. */
  lemma FirstPageReturns(first: nat, rounds: nat, pageSize: nat)
    requires pageSize > 0 && ADDRESSES % pageSize == 0 && first < ADDRESSES
    ensures PageAfter(first, rounds * (ADDRESSES / pageSize), pageSize) == first
  {
    var n := ADDRESSES / pageSize;
    assert ADDRESSES == n * pageSize;
    MulSwap(rounds, n, pageSize);
    DivModOf(rounds, first, ADDRESSES);
  }

  lemma RoundHasTurns(rounds: nat, pageSize: nat)
    requires pageSize > 0 && ADDRESSES % pageSize == 0 && rounds > 0
    ensures var n := ADDRESSES / pageSize;
      n > 0 && rounds * n == (rounds - 1) * n + n && (rounds - 1) * n + 1 <= rounds * n
  {
    LastPage(pageSize);
    Distribute(rounds - 1, 1, ADDRESSES / pageSize);
  }

  /** A turn drops the count of its page by one. */
  lemma TurnDrops(histogram: map<nat, nat>, first: nat, j: nat, pageSize: nat)
    requires DropRun(histogram, first, j + 1, pageSize).Some? && DropRun(histogram, first, j, pageSize).Some?
    requires var h := DropRun(histogram, first, j, pageSize).value; forall page :: page in h ==> h[page] > 0
    ensures var page := PageAfter(first, j, pageSize);
      HeldBy(DropRun(histogram, first, j + 1, pageSize).value, page) + 1 ==
      HeldBy(DropRun(histogram, first, j, pageSize).value, page)
  {
    hide PageAfter;
  }

  lemma {:induction false} EachRoundDrops(histogram: map<nat, nat>, first: nat, rounds: nat, pageSize: nat)
    requires pageSize > 0 && ADDRESSES % pageSize == 0 && first < ADDRESSES
    requires DropRun(histogram, first, rounds * (ADDRESSES / pageSize), pageSize).Some?
    requires forall page :: page in histogram ==> histogram[page] > 0
    ensures HeldBy(DropRun(histogram, first, rounds * (ADDRESSES / pageSize), pageSize).value, first) + rounds
      <= HeldBy(histogram, first)
    decreases rounds
  {
    if rounds > 0 {
      hide DropRun, HeldBy;
      var n := ADDRESSES / pageSize;
      RoundHasTurns(rounds, pageSize);
      FirstPageReturns(first, rounds - 1, pageSize);
      ReturnDrops(histogram, first, (rounds - 1) * n, rounds * n, pageSize);
      EachRoundDrops(histogram, first, rounds - 1, pageSize);
    }
  }

  /** Between a turn at the first page and any later one that page loses at least one. */
  lemma ReturnDrops(histogram: map<nat, nat>, first: nat, j: nat, k: nat, pageSize: nat)
    requires j < k && DropRun(histogram, first, k, pageSize).Some? && PageAfter(first, j, pageSize) == first
    requires forall page :: page in histogram ==> histogram[page] > 0
    ensures DropRun(histogram, first, j, pageSize).Some?
    ensures HeldBy(DropRun(histogram, first, k, pageSize).value, first) + 1
      <= HeldBy(DropRun(histogram, first, j, pageSize).value, first)
  {
    hide PageAfter, DropRun, HeldBy, DropOne;
    DropRunShrinks(histogram, first, j + 1, k, pageSize, first);
    DropRunShrinks(histogram, first, j, j + 1, pageSize, first);
    DropRunPositive(histogram, first, j, pageSize);
    TurnDrops(histogram, first, j, pageSize);
  }

  lemma {:induction false} DropRunPositive(histogram: map<nat, nat>, first: nat, k: nat, pageSize: nat)
    requires DropRun(histogram, first, k, pageSize).Some?
    requires forall page :: page in histogram ==> histogram[page] > 0
    ensures var h := DropRun(histogram, first, k, pageSize).value;
      forall page :: page in h ==> h[page] > 0
    decreases k
  {
    if k > 0 {
      DropRunPositive(histogram, first, k - 1, pageSize);
    }
  }

  /**
   Unlocking a range that touches the last page never succeeds, whatever was locked: its loop does not
   end, and after finitely many turns it meets a page that is not locked.
   */
  lemma UnlockFails(histogram: map<nat, nat>, r: Range, pageSize: nat)
    requires pageSize > 0 && ADDRESSES % pageSize == 0 && r.size > 0 && r.base + r.size <= ADDRESSES
    requires PageOf(r.base + r.size - 1, pageSize) == ADDRESSES - pageSize
    requires forall page :: page in histogram ==> histogram[page] > 0
    ensures !LoopEnds(r, pageSize)
    ensures exists k: nat :: DropRun(histogram, PageOf(r.base, pageSize), k, pageSize) == None
  {
    var first := PageOf(r.base, pageSize);
    PageFacts(r.base, pageSize);
    LoopNeverEnds(r, pageSize);
    var rounds := HeldBy(histogram, first) + 1;
    var k := rounds * (ADDRESSES / pageSize);
    if DropRun(histogram, first, k, pageSize).Some? {
      EachRoundDrops(histogram, first, rounds, pageSize);
    }
  }

  ///////////////////////////////////////////////////////////////////////////////////////////////
  // The manager
  ///////////////////////////////////////////////////////////////////////////////////////////////

  /** A range inside the address space that stays off its last page, or an empty one. */
  predicate Lockable(r: Range, pageSize: nat)
    requires pageSize > 0
  {
    r.size > 0 ==> r.base + r.size <= ADDRESSES && PageOf(r.base + r.size - 1, pageSize) != ADDRESSES - pageSize
  }

  class LockedPageManager {
    const page_size: nat
    var histogram: map<nat, nat>
    /** The pages that the operating system was told to lock and not yet told to unlock. */
    var osLocked: set<nat>
    /** The ranges locked and not yet unlocked. */
    ghost var live: seq<Range>

    /** Every page counts the live ranges that touch it and is locked exactly while some do. */
    ghost predicate Valid()
      reads this
    {
      && page_size > 0 && ADDRESSES % page_size == 0
      && (forall page: nat :: HeldBy(histogram, page) == Count(live, page, page_size))
      && (forall page :: page in histogram ==> histogram[page] > 0)
      && (forall page :: page in osLocked <==> page in histogram)
    }

    constructor (exponent: nat)
      requires exponent <= 64
      ensures Valid() && page_size == Pow(2, exponent) && live == []
    {
      page_size := Pow(2, exponent);
      histogram, osLocked, live := map[], {}, [];
      new;
      PowPositive(2, exponent);
      AddressesArePower();
      PowAdd(2, 64 - exponent, exponent);
      DivModOf(Pow(2, 64 - exponent), 0, Pow(2, exponent));
    }

    /** A page is locked exactly while it is touched. */
    lemma LockedWhileTouched(page: nat)
      requires Valid()
      ensures page in osLocked <==> exists i :: 0 <= i < |live| && Touches(live[i], page, page_size)
    {
      CountPositive(live, page, page_size);
      assert HeldBy(histogram, page) == Count(live, page, page_size);
    }

    /** Increases the count of every page of a range and locks the pages that had none. */
    method LockRange(r: Range)
      requires Valid() && Lockable(r, page_size)
      modifies this
      ensures Valid() && live == old(live) + [r]
    {
      ghost var before := live;
      live := live + [r];
      forall page: nat ensures Count(live, page, page_size) ==
        Count(before, page, page_size) + if Touches(r, page, page_size) then 1 else 0
      {
        CountConcat(before, [r], page, page_size);
      }
      if r.size == 0 {
        return;
      }
      histogram, osLocked := AddPages(histogram, osLocked, r, page_size);
    }

    /** Decreases the count of every page of a live range; the assertion never fails. */
    method UnlockRange(r: Range)
      requires Valid() && r in live && Lockable(r, page_size)
      modifies this
      ensures Valid() && multiset(live) == multiset(old(live)) - multiset{r}
    {
      ghost var before := live;
      ghost var i :| 0 <= i < |live| && live[i] == r;
      live := live[..i] + live[i + 1..];
      TakenOut(before, i);
      forall page: nat ensures Count(before, page, page_size) ==
        Count(live, page, page_size) + if Touches(r, page, page_size) then 1 else 0
      {
        CountWithout(before, i, page, page_size);
      }
      if r.size == 0 {
        return;
      }
      histogram, osLocked := DropPages(histogram, osLocked, r, page_size);
    }
  }

  lemma AddressesArePower()
    ensures ADDRESSES == Pow(2, 64)
  {
    assert Pow(2, 8) == 256;
    hide Pow;
    PowAdd(2, 8, 8);
    PowAdd(2, 16, 16);
    PowAdd(2, 32, 32);
  }

  lemma TakenOut(s: seq<Range>, i: nat)
    requires i < |s|
    ensures multiset(s[..i] + s[i + 1..]) == multiset(s) - multiset{s[i]}
  {
    assert s == s[..i] + [s[i]] + s[i + 1..];
  }

  lemma {:induction false} CountPositive(live: seq<Range>, page: nat, pageSize: nat)
    requires pageSize > 0
    ensures Count(live, page, pageSize) > 0 <==> exists i :: 0 <= i < |live| && Touches(live[i], page, pageSize)
    decreases live
  {
    if live != [] {
      CountPositive(live[..|live| - 1], page, pageSize);
      assert forall i :: 0 <= i < |live| - 1 ==> live[..|live| - 1][i] == live[i];
    }
  }

  /** A page of the range before the given one. */
  predicate Passed(r: Range, q: nat, page: nat, pageSize: nat)
    requires pageSize > 0
  {
    Touches(r, q, pageSize) && q < page
  }

  /** Counts and locks agree, page by page. */
  ghost predicate InStep(histogram: map<nat, nat>, osLocked: set<nat>) {
    && (forall page :: page in histogram ==> histogram[page] > 0)
    && (forall page :: page in osLocked <==> page in histogram)
  }

  method AddPages(before: map<nat, nat>, lockedBefore: set<nat>, r: Range, pageSize: nat)
    returns (histogram: map<nat, nat>, osLocked: set<nat>)
    requires pageSize > 0 && ADDRESSES % pageSize == 0 && r.size > 0 && Lockable(r, pageSize) && InStep(before, lockedBefore)
    ensures InStep(histogram, osLocked)
    ensures forall q: nat :: HeldBy(histogram, q) == HeldBy(before, q) + if Touches(r, q, pageSize) then 1 else 0
  {
    histogram, osLocked := before, lockedBefore;
    var start := PageOf(r.base, pageSize);
    var end := PageOf(r.base + r.size - 1, pageSize);
    PageFacts(r.base, pageSize);
    PageFacts(r.base + r.size - 1, pageSize);
    BelowLast(end, pageSize);
    hide PageOf, Touches, Passed;
    var page: nat := start;
    while page <= end
      invariant page % pageSize == 0 && start <= page && page < ADDRESSES
      invariant InStep(histogram, osLocked)
      invariant forall q: nat :: HeldBy(histogram, q) == HeldBy(before, q) + if Passed(r, q, page, pageSize) then 1 else 0
      decreases ADDRESSES - page
    {
      PassOne(r, page, pageSize);
      NextPage(page, pageSize);
      if page !in histogram {
        osLocked := osLocked + {page};
        histogram := histogram[page := 1];
      } else {
        histogram := histogram[page := histogram[page] + 1];
      }
      page := (page + pageSize) % ADDRESSES;
    }
  }

  /** One more page is passed, and the next address does not wrap. */
  lemma PassOne(r: Range, page: nat, pageSize: nat)
    requires pageSize > 0 && r.size > 0 && page % pageSize == 0
    requires PageOf(r.base, pageSize) <= page <= PageOf(r.base + r.size - 1, pageSize)
    ensures !Passed(r, page, page, pageSize) && Touches(r, page, pageSize)
    ensures forall q: nat :: Passed(r, q, page + pageSize, pageSize) <==> Passed(r, q, page, pageSize) || q == page
  {
    forall q: nat ensures Passed(r, q, page + pageSize, pageSize) <==> Passed(r, q, page, pageSize) || q == page {
      if page <= q < page + pageSize && q % pageSize == 0 {
        SamePage(page, q, pageSize);
      }
    }
  }

  method DropPages(before: map<nat, nat>, lockedBefore: set<nat>, r: Range, pageSize: nat)
    returns (histogram: map<nat, nat>, osLocked: set<nat>)
    requires pageSize > 0 && ADDRESSES % pageSize == 0 && r.size > 0 && Lockable(r, pageSize) && InStep(before, lockedBefore)
    requires forall q: nat :: Touches(r, q, pageSize) ==> HeldBy(before, q) > 0
    ensures InStep(histogram, osLocked)
    ensures forall q: nat :: HeldBy(before, q) == HeldBy(histogram, q) + if Touches(r, q, pageSize) then 1 else 0
  {
    histogram, osLocked := before, lockedBefore;
    var start := PageOf(r.base, pageSize);
    var end := PageOf(r.base + r.size - 1, pageSize);
    PageFacts(r.base, pageSize);
    PageFacts(r.base + r.size - 1, pageSize);
    BelowLast(end, pageSize);
    hide PageOf, Touches, Passed;
    var page: nat := start;
    while page <= end
      invariant page % pageSize == 0 && start <= page && page < ADDRESSES
      invariant InStep(histogram, osLocked)
      invariant forall q: nat :: HeldBy(before, q) == HeldBy(histogram, q) + if Passed(r, q, page, pageSize) then 1 else 0
      decreases ADDRESSES - page
    {
      PassOne(r, page, pageSize);
      NextPage(page, pageSize);
      assert page in histogram; // cannot unlock an area that was not locked
      histogram := histogram[page := histogram[page] - 1];
      if histogram[page] == 0 {
        osLocked := osLocked - {page};
        histogram := histogram - {page};
      }
      page := (page + pageSize) % ADDRESSES;
    }
  }
}
