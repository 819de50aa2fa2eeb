/** Which peers of a saved record survive loading, whatever the record (addrman.h). */
module AddrReload {
  import opened AddrBook
  import opened AddrFile

  /** No peer listed before competes for the tried slot of this one. */
  predicate FirstTried(f: Peers, salt: Salt, j: nat)
    requires j < |f.trieds|
  {
    forall i :: 0 <= i < j ==> salt.TriedSlot(f.trieds[i].addr.service) != salt.TriedSlot(f.trieds[j].addr.service)
  }

  /** No peer listed before competes for the slot that the peer's own source selects. */
  predicate FirstNew(f: Peers, salt: Salt, j: nat)
    requires j < |f.news|
  {
    forall i :: 0 <= i < j ==> OwnSlot(salt, f.news[i]) != OwnSlot(salt, f.news[j])
  }

  function OwnSlot(salt: Salt, e: Entry): Slot {
    salt.NewSlot(e.addr.service, e.source)
  }

  /** What became of one of the first n listed tried peers. */
  ghost predicate TriedLoaded(f: Peers, salt: Salt, b: Book, j: nat)
    requires j < |f.trieds|
  {
    var k := salt.TriedSlot(f.trieds[j].addr.service);
    && k in b.tried && b.tried[k] in b.entries
    && if FirstTried(f, salt, j) then b.entries[b.tried[k]] == f.trieds[j].(lastTry := 0)
       else Unknown(b, f.trieds[j].Net())
  }

  ghost predicate TriedsLoaded(f: Peers, salt: Salt, b: Book, n: nat)
    requires n <= |f.trieds|
  {
    && (forall j :: 0 <= j < n ==> TriedLoaded(f, salt, b, j))
    && forall k :: k in b.tried ==> exists j :: 0 <= j < n && salt.TriedSlot(f.trieds[j].addr.service) == k
  }

  lemma TriedStaysLoaded(f: Peers, salt: Salt, s: State, n: nat, j: nat)
    requires WellFormed(f) && j < n < |f.trieds| && TriedsIn(f, salt, s, n) && TriedLoaded(f, salt, s.book, j)
    ensures TriedLoaded(f, salt, AddTried(f, salt, s, n).book, j)
  {
    hide Sound;
    assert f.trieds[j].Net() != f.trieds[n].Net();
  }

  lemma TriedIsLoaded(f: Peers, salt: Salt, s: State, n: nat)
    requires WellFormed(f) && n < |f.trieds| && TriedsIn(f, salt, s, n) && TriedsLoaded(f, salt, s.book, n)
    ensures TriedLoaded(f, salt, AddTried(f, salt, s, n).book, n)
  {
    hide Sound;
    var k := salt.TriedSlot(f.trieds[n].addr.service);
    if k in s.book.tried {
      var j :| 0 <= j < n && salt.TriedSlot(f.trieds[j].addr.service) == k;
      assert TriedLoaded(f, salt, s.book, j);
      assert !FirstTried(f, salt, n);
    } else {
      forall i | 0 <= i < n ensures salt.TriedSlot(f.trieds[i].addr.service) != k {
        assert TriedLoaded(f, salt, s.book, i);
      }
    }
  }

  lemma TakenByListed(f: Peers, salt: Salt, s: State, n: nat)
    requires n < |f.trieds| && TriedsLoaded(f, salt, s.book, n)
    ensures forall k :: k in AddTried(f, salt, s, n).book.tried ==>
      exists j :: 0 <= j < n + 1 && salt.TriedSlot(f.trieds[j].addr.service) == k
  {
    hide TriedLoaded, Salt.TriedSlot;
    var tried := AddTried(f, salt, s, n).book.tried;
    forall k | k in tried ensures exists j :: 0 <= j < n + 1 && salt.TriedSlot(f.trieds[j].addr.service) == k {
      if k in s.book.tried {
        var j :| 0 <= j < n && salt.TriedSlot(f.trieds[j].addr.service) == k;
      }
    }
  }

  lemma NextTriedLoaded(f: Peers, salt: Salt, s: State, n: nat)
    requires WellFormed(f) && n < |f.trieds| && TriedsIn(f, salt, s, n) && TriedsLoaded(f, salt, s.book, n)
    ensures TriedsLoaded(f, salt, AddTried(f, salt, s, n).book, n + 1)
  {
    hide *;
    var c := AddTried(f, salt, s, n).book;
    TriedIsLoaded(f, salt, s, n);
    TakenByListed(f, salt, s, n);
    forall j | 0 <= j < n ensures TriedLoaded(f, salt, c, j) {
      LoadedAt(f, salt, s.book, n, j);
      TriedStaysLoaded(f, salt, s, n, j);
    }
    AllTriedLoaded(f, salt, c, n);
  }

  lemma LoadedAt(f: Peers, salt: Salt, b: Book, n: nat, j: nat)
    requires j < n <= |f.trieds| && TriedsLoaded(f, salt, b, n)
    ensures TriedLoaded(f, salt, b, j)
  {
    hide TriedLoaded;
  }

  lemma AllTriedLoaded(f: Peers, salt: Salt, c: Book, n: nat)
    requires n < |f.trieds| && TriedLoaded(f, salt, c, n) && forall j :: 0 <= j < n ==> TriedLoaded(f, salt, c, j)
    requires forall k :: k in c.tried ==> exists j :: 0 <= j < n + 1 && salt.TriedSlot(f.trieds[j].addr.service) == k
    ensures TriedsLoaded(f, salt, c, n + 1)
  {
    hide TriedLoaded, Salt.TriedSlot;
  }

  lemma {:induction false} EveryTriedLoaded(f: Peers, salt: Salt, n: nat)
    requires WellFormed(f) && n <= |f.trieds|
    ensures TriedsLoaded(f, salt, LoadTried(f, salt, n).book, n)
    decreases n
  {
    hide TriedsLoaded, TriedsIn, AddTried;
    if n > 0 {
      EveryTriedLoaded(f, salt, n - 1);
      LoadTriedSound(f, salt, n - 1);
      NextTriedLoaded(f, salt, LoadTried(f, salt, n - 1), n - 1);
    } else {
      LoadNewSound(f, salt, |f.news|);
      NoTriedLoaded(f, salt, LoadNew(f, salt, |f.news|));
    }
  }

  lemma NoTriedLoaded(f: Peers, salt: Salt, b: Book)
    requires NewsIn(f, salt, b, |f.news|)
    ensures TriedsLoaded(f, salt, b, 0)
  {}

  /** A tried peer of any record survives exactly when no one listed before takes its slot, and with all it had. */
  lemma TriedSurvives(f: Peers, salt: Salt, j: nat)
    requires WellFormed(f) && j < |f.trieds|
    ensures var (b, e) := (Restored(f, salt).book, f.trieds[j]);
      && (Unknown(b, e.Net()) <==> !FirstTried(f, salt, j))
      && (FirstTried(f, salt, j) ==>
            var k := salt.TriedSlot(e.addr.service);
            k in b.tried && b.tried[k] in b.entries && b.entries[b.tried[k]] == e.(lastTry := 0))
  {
    var loaded, b := LoadTried(f, salt, |f.trieds|), LoadBuckets(f, salt, |f.buckets|);
    EveryTriedLoaded(f, salt, |f.trieds|);
    LoadBucketsSound(f, salt, |f.buckets|);
    assert TriedLoaded(f, salt, loaded.book, j);
    hide Sound, LoadTried, LoadBuckets, FirstTried, WellFormed;
    PrunedTried(b, loaded.nextId, salt.TriedSlot(f.trieds[j].addr.service));
  }

  lemma PrunedTried(b: Book, n: int, k: Slot)
    requires k in b.tried && b.tried[k] in b.entries
    ensures b.tried[k] in Pruned(b, n).entries && Pruned(b, n).entries[b.tried[k]] == b.entries[b.tried[k]]
    ensures Pruned(b, n).tried == b.tried
    ensures forall net :: Unknown(b, net) ==> Unknown(Pruned(b, n), net)
  {
    assert k in SlotsOf(b.tried, b.tried[k]);
  }

  ghost predicate NewLoaded(f: Peers, salt: Salt, b: Book, j: nat)
    requires j < |f.news|
  {
    && OwnSlot(salt, f.news[j]) in b.untried
    && SlotsOf(b.untried, j) == if FirstNew(f, salt, j) then {OwnSlot(salt, f.news[j])} else {}
  }

  ghost predicate NewsLoaded(f: Peers, salt: Salt, b: Book, n: nat)
    requires n <= |f.news|
  {
    && (forall j :: 0 <= j < n ==> NewLoaded(f, salt, b, j))
    && forall s :: s in b.untried ==> exists j :: 0 <= j < n && OwnSlot(salt, f.news[j]) == s
  }

  lemma {:induction false} EveryNewLoaded(f: Peers, salt: Salt, n: nat)
    requires WellFormed(f) && !f.Exact() && n <= |f.news|
    ensures NewsLoaded(f, salt, LoadNew(f, salt, n), n)
    decreases n
  {
    hide NewsLoaded, AddNew, NewsIn;
    if n == 0 {
      NoNewLoaded(f, salt);
    } else {
      EveryNewLoaded(f, salt, n - 1);
      LoadNewSound(f, salt, n - 1);
      NextNewLoaded(f, salt, LoadNew(f, salt, n - 1), n - 1);
    }
  }

  lemma NoNewLoaded(f: Peers, salt: Salt)
    ensures NewsLoaded(f, salt, EMPTY, 0)
  {}

  lemma NextNewLoaded(f: Peers, salt: Salt, b: Book, n: nat)
    requires WellFormed(f) && !f.Exact() && n < |f.news| && NewsIn(f, salt, b, n) && NewsLoaded(f, salt, b, n)
    ensures NewsLoaded(f, salt, AddNew(f, salt, b, n), n + 1)
  {
    hide *;
    NotYetIn(f, salt, b, n);
    NextSlot(f, salt, b, n);
    NewIsLoaded(f, salt, b, AddNew(f, salt, b, n), n);
    NewsStayLoaded(f, salt, b, AddNew(f, salt, b, n), n);
    AllNewLoaded(f, salt, AddNew(f, salt, b, n), n);
  }

  lemma NextSlot(f: Peers, salt: Salt, b: Book, n: nat)
    requires !f.Exact() && n < |f.news|
    ensures var s := OwnSlot(salt, f.news[n]);
      AddNew(f, salt, b, n).untried == if s in b.untried then b.untried else b.untried[s := n]
  {}

  lemma AllNewLoaded(f: Peers, salt: Salt, c: Book, n: nat)
    requires n < |f.news| && NewLoaded(f, salt, c, n) && forall j :: 0 <= j < n ==> NewLoaded(f, salt, c, j)
    requires forall s :: s in c.untried ==> exists j :: 0 <= j < n + 1 && OwnSlot(salt, f.news[j]) == s
    ensures NewsLoaded(f, salt, c, n + 1)
  {
    hide NewLoaded, OwnSlot;
  }

  lemma NotYetIn(f: Peers, salt: Salt, b: Book, n: nat)
    requires n <= |f.news| && NewsIn(f, salt, b, n)
    ensures SlotsOf(b.untried, n) == {}
  {
    hide Sound;
  }

  lemma NewIsLoaded(f: Peers, salt: Salt, b: Book, c: Book, n: nat)
    requires n < |f.news| && NewsLoaded(f, salt, b, n) && SlotsOf(b.untried, n) == {}
    requires c.untried == if OwnSlot(salt, f.news[n]) in b.untried then b.untried else b.untried[OwnSlot(salt, f.news[n]) := n]
    ensures NewLoaded(f, salt, c, n)
  {
    hide OwnSlot;
    var s := OwnSlot(salt, f.news[n]);
    if s in b.untried {
      var j :| 0 <= j < n && OwnSlot(salt, f.news[j]) == s;
      assert !FirstNew(f, salt, n);
    } else {
      forall i | 0 <= i < n ensures OwnSlot(salt, f.news[i]) != s {
        assert NewLoaded(f, salt, b, i);
      }
      SlotsAfterUpdate(b.untried, s, n, n);
    }
  }

  lemma NewsStayLoaded(f: Peers, salt: Salt, b: Book, c: Book, n: nat)
    requires n < |f.news| && NewsLoaded(f, salt, b, n)
    requires c.untried == if OwnSlot(salt, f.news[n]) in b.untried then b.untried else b.untried[OwnSlot(salt, f.news[n]) := n]
    ensures forall j :: 0 <= j < n ==> NewLoaded(f, salt, c, j)
    ensures forall s :: s in c.untried ==> exists j :: 0 <= j < n + 1 && OwnSlot(salt, f.news[j]) == s
  {
    hide OwnSlot, FirstNew, SlotsOf;
    var s := OwnSlot(salt, f.news[n]);
    forall j | 0 <= j < n ensures NewLoaded(f, salt, c, j) {
      assert NewLoaded(f, salt, b, j);
      SlotsAfterUpdate(b.untried, s, n, j);
      NotAmong(b.untried, s, j);
    }
    forall t | t in c.untried ensures exists j :: 0 <= j < n + 1 && OwnSlot(salt, f.news[j]) == t {
      if t in b.untried {
        var j :| 0 <= j < n && OwnSlot(salt, f.news[j]) == t;
      }
    }
  }

  lemma NotAmong(t: Table, s: Slot, id: int)
    ensures s !in t ==> SlotsOf(t, id) - {s} == SlotsOf(t, id)
  {}

  lemma {:induction false} TriedsKeepUntried(f: Peers, salt: Salt, n: nat)
    requires n <= |f.trieds|
    ensures LoadTried(f, salt, n).book.untried == LoadNew(f, salt, |f.news|).untried
    decreases n
  {
    if n > 0 {
      TriedsKeepUntried(f, salt, n - 1);
    }
  }

  lemma {:induction false} SlotsUnusable(f: Peers, salt: Salt, b: Book, bucket: nat, n: nat)
    requires !f.Exact() && bucket < |f.buckets| && n <= |f.buckets[bucket]|
    ensures LoadSlots(f, salt, b, bucket, n) == b
    decreases n
  {
    if n > 0 {
      SlotsUnusable(f, salt, b, bucket, n - 1);
    }
  }

  lemma {:induction false} BucketsUnusable(f: Peers, salt: Salt, m: nat)
    requires !f.Exact() && m <= |f.buckets|
    ensures LoadBuckets(f, salt, m) == LoadTried(f, salt, |f.trieds|).book
    decreases m
  {
    if m > 0 {
      BucketsUnusable(f, salt, m - 1);
      SlotsUnusable(f, salt, LoadBuckets(f, salt, m - 1), m - 1, |f.buckets[m - 1]|);
    }
  }

  /**
   When the saved positions cannot be used, because of the version or the number of buckets, an untried
   peer survives exactly when no one listed before takes the slot that its own source selects.
   */
  lemma UntriedSurvives(f: Peers, salt: Salt, j: nat)
    requires WellFormed(f) && !f.Exact() && j < |f.news|
    ensures var (b, e) := (Restored(f, salt).book, f.news[j]);
      && (Unknown(b, e.Net()) <==> !FirstNew(f, salt, j))
      && (FirstNew(f, salt, j) ==>
            j in b.entries && b.entries[j] == e.(lastTry := 0) && SlotsOf(b.untried, j) == {OwnSlot(salt, e)})
  {
    var loaded := LoadTried(f, salt, |f.trieds|);
    EveryNewLoaded(f, salt, |f.news|);
    TriedsKeepUntried(f, salt, |f.trieds|);
    BucketsUnusable(f, salt, |f.buckets|);
    LoadTriedSound(f, salt, |f.trieds|);
    assert NewLoaded(f, salt, LoadNew(f, salt, |f.news|), j);
    hide LoadTried, LoadNew, LoadBuckets, FirstNew, Sound, WellFormed;
    OthersDiffer(f, salt, loaded, j);
    PrunedUntried(loaded.book, loaded.nextId, j);
  }

  lemma PrunedUntried(b: Book, n: int, j: int)
    requires j in b.entries && j < n && !InTried(b, j)
    requires forall i :: i in b.entries && i != j ==> b.entries[i].Net() != b.entries[j].Net()
    ensures Pruned(b, n).untried == b.untried
    ensures Unknown(Pruned(b, n), b.entries[j].Net()) <==> SlotsOf(b.untried, j) == {}
    ensures SlotsOf(b.untried, j) != {} ==> j in Pruned(b, n).entries && Pruned(b, n).entries[j] == b.entries[j]
  {
    hide SlotsOf, InTried;
    if SlotsOf(b.untried, j) != {} {
      assert Pruned(b, n).entries[j].Net() == b.entries[j].Net();
    }
  }

  lemma OthersDiffer(f: Peers, salt: Salt, s: State, j: nat)
    requires j < |f.news| && TriedsIn(f, salt, s, |f.trieds|)
    ensures j in s.book.entries && j < s.nextId && s.book.entries[j] == f.news[j].(lastTry := 0) && !InTried(s.book, j)
    ensures forall i :: i in s.book.entries && i != j ==> s.book.entries[i].Net() != f.news[j].Net()
  {
    assert s.book.entries[j].Net() == f.news[j].Net();
  }
}
