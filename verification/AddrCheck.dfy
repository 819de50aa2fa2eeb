/** What CAddrMan::Check_ counts while it walks over the two tables. */
module AddrCheck {
  import opened AddrBook

  /** Not visited yet when the walk has come to position (n, i). */
  predicate Ahead(s: Slot, n: nat, i: nat) {
    s.bucket > n || (s.bucket == n && s.pos >= i)
  }

  /** The slots of an entry that are still ahead. */
  ghost function Rest(t: Table, id: int, n: nat, i: nat): set<Slot> {
    set s | s in t && t[s] == id && Ahead(s, n, i)
  }

  ghost predicate InRange(t: Table, buckets: nat) {
    forall s :: s in t ==> s.bucket < buckets && s.pos < BUCKET_SIZE
  }

  lemma NoneLeft(ids: set<int>)
    requires forall i :: i !in ids
    ensures ids == {} && |ids| == 0
  {
    if forall i :: i in ids ==> i in {} {
      assert ids <= {};
    }
  }

  /** The walk passes one position. */
  lemma RestStep(t: Table, id: int, n: nat, i: nat)
    ensures var s := Slot(n, i);
      Rest(t, id, n, i + 1) == Rest(t, id, n, i) - {s} && (s in Rest(t, id, n, i) <==> s in t && t[s] == id)
  {
    var s := Slot(n, i);
    forall u | u in Rest(t, id, n, i) && u !in Rest(t, id, n, i + 1) ensures u == s {}
  }

  /** The same, counted. */
  lemma RestCount(t: Table, id: int, n: nat, i: nat)
    ensures var s := Slot(n, i);
      |Rest(t, id, n, i)| == |Rest(t, id, n, i + 1)| + if s in t && t[s] == id then 1 else 0
  {
    RestStep(t, id, n, i);
  }

  /** The end of a bucket is the start of the next one. */
  lemma RestNextBucket(t: Table, id: int, n: nat, buckets: nat)
    requires InRange(t, buckets)
    ensures Rest(t, id, n, BUCKET_SIZE) == Rest(t, id, n + 1, 0)
  {}

  /** What is left after one position, for every id. */
  lemma RestsStep(t: Table, n: nat, i: nat)
    ensures var s := Slot(n, i);
      forall id :: Rest(t, id, n, i + 1) == if s in t && t[s] == id then Rest(t, id, n, i) - {s} else Rest(t, id, n, i)
  {
    forall id ensures Rest(t, id, n, i + 1) ==
      if Slot(n, i) in t && t[Slot(n, i)] == id then Rest(t, id, n, i) - {Slot(n, i)} else Rest(t, id, n, i)
    {
      RestStep(t, id, n, i);
    }
  }

  lemma RestWithin(t: Table, id: int, n: nat, i: nat)
    ensures Rest(t, id, n, i) <= SlotsOf(t, id)
  {}

  lemma RestAll(t: Table, id: int)
    ensures Rest(t, id, 0, 0) == SlotsOf(t, id)
  {}

  /** What Check_ asks of a single entry. */
  lemma EntryChecks(s: State, salt: Salt, id: int)
    requires ValidState(s, salt) && id in s.book.entries
    ensures var e := s.book.entries[id];
      && 0 <= id < s.nextId && e.lastTry >= 0 && e.lastSuccess >= 0
      && if InTried(s.book, id) then e.lastSuccess != 0 && |SlotsOf(s.book.untried, id)| == 0
         else 0 < |SlotsOf(s.book.untried, id)| <= NEW_BUCKETS_PER_ADDRESS
  {
    assert EntrySound(s.book, id);
    if InTried(s.book, id) {
      var k :| k in SlotsOf(s.book.tried, id);
      assert s.book.tried[k] == id;
      forall t | t in s.book.untried ensures s.book.untried[t] != id {}
      assert SlotsOf(s.book.untried, id) == {};
    }
  }

  /** Every remaining reference count is what is still ahead of the walk. */
  ghost predicate CountsAhead(t: Table, mapNew: map<int, int>, n: nat, i: nat) {
    && (forall id :: id in mapNew <==> |Rest(t, id, n, i)| > 0)
    && (forall id :: id in mapNew ==> mapNew[id] == |Rest(t, id, n, i)|)
  }

  /** One reference is counted down, and struck off at zero. */
  function CountedDown(mapNew: map<int, int>, id: int): map<int, int>
    requires id in mapNew
  {
    var down := mapNew[id := mapNew[id] - 1];
    if down[id] == 0 then down - {id} else down
  }

  lemma CountsStep(t: Table, mapNew: map<int, int>, n: nat, i: nat)
    requires CountsAhead(t, mapNew, n, i)
    ensures var s := Slot(n, i);
      if s in t then t[s] in mapNew && CountsAhead(t, CountedDown(mapNew, t[s]), n, i + 1)
      else CountsAhead(t, mapNew, n, i + 1)
  {
    hide Rest;
    var s := Slot(n, i);
    forall id ensures |Rest(t, id, n, i)| == |Rest(t, id, n, i + 1)| + if s in t && t[s] == id then 1 else 0 {
      RestCount(t, id, n, i);
    }
  }
}
