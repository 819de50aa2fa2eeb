/**
 What CAddrMan::Serialize saves of an address book and what CAddrMan::Unserialize makes of any
 such record (addrman.h), and the proof that the two agree up to the numbering of the entries.
 */
module AddrFile {
  import opened AddrBook
  import opened Collections

  /**
   The saved record.  Ids, tried slots and positions in the "new" buckets are not saved; `buckets`
   lists, bucket by bucket, the occupants as indexes into `news`.
   */
  datatype Peers = Peers(version: nat, key: nat, news: seq<Entry>, trieds: seq<Entry>, buckets: seq<seq<int>>)
  {
    /** Whether the saved positions can be used. */
    predicate Exact() {
      version == 1 && |buckets| == NEW_BUCKET_COUNT
    }
  }

  /** The time of the last try is kept in memory only. */
  function Fresh(e: Entry): Entry {
    e.(lastTry := 0)
  }

  ///////////////////////////////////////////////////////////////////////////////////////////////
  // Loading
  ///////////////////////////////////////////////////////////////////////////////////////////////

  /** Entry n of the new list; when positions are unusable it is offered the slot of its own source. */
  function AddNew(f: Peers, salt: Salt, b: Book, n: nat): Book
    requires n < |f.news|
  {
    var e := Fresh(f.news[n]);
    var c, s := b.(entries := b.entries[n := e]), salt.NewSlot(e.addr.service, e.source);
    if f.Exact() || s in c.untried then c else c.(untried := c.untried[s := n])
  }

  /** Entry n of the tried list, which is lost when its slot is taken. */
  function AddTried(f: Peers, salt: Salt, s: State, n: nat): State
    requires n < |f.trieds|
  {
    var e := Fresh(f.trieds[n]);
    var k := salt.TriedSlot(e.addr.service);
    if k in s.book.tried then s
    else State(Book(s.book.entries[s.nextId := e], s.book.untried, s.book.tried[k := s.nextId]), s.nextId + 1)
  }

  function LoadNew(f: Peers, salt: Salt, n: nat): Book
    requires n <= |f.news|
  {
    if n == 0 then EMPTY else AddNew(f, salt, LoadNew(f, salt, n - 1), n - 1)
  }

  function LoadTried(f: Peers, salt: Salt, n: nat): State
    requires n <= |f.trieds|
  {
    if n == 0 then State(LoadNew(f, salt, |f.news|), |f.news|)
    else AddTried(f, salt, LoadTried(f, salt, n - 1), n - 1)
  }

  /** Then one saved reference from a bucket. */
  ghost function LoadSlot(f: Peers, salt: Salt, b: Book, bucket: nat, index: int): Book {
    if index !in b.entries || index >= |f.news| then b
    else
      var s := Slot(bucket, salt.Position(true, bucket, b.entries[index].addr.service));
      if f.Exact() && s !in b.untried && |SlotsOf(b.untried, index)| < NEW_BUCKETS_PER_ADDRESS
      then b.(untried := b.untried[s := index])
      else b
  }

  ghost function LoadSlots(f: Peers, salt: Salt, b: Book, bucket: nat, n: nat): Book
    requires bucket < |f.buckets| && n <= |f.buckets[bucket]|
  {
    if n == 0 then b else LoadSlot(f, salt, LoadSlots(f, salt, b, bucket, n - 1), bucket, f.buckets[bucket][n - 1])
  }

  ghost function LoadBuckets(f: Peers, salt: Salt, m: nat): Book
    requires m <= |f.buckets|
  {
    if m == 0 then LoadTried(f, salt, |f.trieds|).book
    else LoadSlots(f, salt, LoadBuckets(f, salt, m - 1), m - 1, |f.buckets[m - 1]|)
  }

  ghost predicate Stray(b: Book, i: int) {
    !InTried(b, i) && SlotsOf(b.untried, i) == {}
  }

  /** Entries below n that are in neither table are dropped. */
  ghost function Pruned(b: Book, n: int): Book {
    b.(entries := map i | i in b.entries && !(i < n && Stray(b, i)) :: b.entries[i])
  }

  ghost function Restored(f: Peers, salt: Salt): State {
    var nextId := LoadTried(f, salt, |f.trieds|).nextId;
    State(Pruned(LoadBuckets(f, salt, |f.buckets|), nextId), nextId)
  }

  ///////////////////////////////////////////////////////////////////////////////////////////////
  // Any record of distinct peers loads into a consistent book
  ///////////////////////////////////////////////////////////////////////////////////////////////

  /** No peer is listed twice, and the tried ones have succeeded. */
  ghost predicate WellFormed(f: Peers) {
    && (forall i, j :: 0 <= i < j < |f.news| ==> f.news[i].Net() != f.news[j].Net())
    && (forall i, j :: 0 <= i < j < |f.trieds| ==> f.trieds[i].Net() != f.trieds[j].Net())
    && (forall i, j :: 0 <= i < |f.news| && 0 <= j < |f.trieds| ==> f.news[i].Net() != f.trieds[j].Net())
    && (forall i :: 0 <= i < |f.news| ==> f.news[i].lastSuccess >= 0)
    && (forall i :: 0 <= i < |f.trieds| ==> f.trieds[i].lastSuccess > 0)
  }

  /** Ids are handed out in order, the untried ones first. */
  ghost predicate Numbered(b: Book, nNew: nat, nextId: int) {
    && nNew <= nextId
    && (forall i :: i in b.entries <==> 0 <= i < nextId)
    && (forall s :: s in b.untried ==> 0 <= b.untried[s] < nNew)
    && (forall s :: s in b.tried ==> nNew <= b.tried[s] < nextId)
  }

  lemma FillSound(b: Book, salt: Salt, s: Slot, id: int)
    requires Sound(b, salt) && id in b.entries && !InTried(b, id) && salt.Fits(s, b.entries[id].addr.service)
    requires s !in b.untried && |SlotsOf(b.untried, id)| < NEW_BUCKETS_PER_ADDRESS
    ensures Sound(b.(untried := b.untried[s := id]), salt)
  {
    hide Sound, SlotsOf, InTried;
    assert Settled(b, b.entries.Keys);
    InsertSound(b, salt, s, id, b.entries.Keys);
  }

  lemma NewNumbered(b: Book, salt: Salt, n: nat, e: Entry)
    requires Sound(b, salt) && Numbered(b, n, n) && b.tried == map[] && Unknown(b, e.Net())
    requires e.lastTry >= 0 && e.lastSuccess >= 0
    ensures var (c, s) := (b.(entries := b.entries[n := e]), salt.NewSlot(e.addr.service, e.source));
      && Sound(c, salt) && Numbered(c, n + 1, n + 1)
      && var d := c.(untried := c.untried[s := n]);
         Numbered(d, n + 1, n + 1) && (s !in c.untried ==> Sound(d, salt))
  {
    var c, s := b.(entries := b.entries[n := e]), salt.NewSlot(e.addr.service, e.source);
    LoadEntrySound(b, salt, n, e);
    if s !in c.untried {
      FillSound(c, salt, s, n);
    }
  }

  ghost predicate NewsIn(f: Peers, salt: Salt, b: Book, n: nat)
    requires n <= |f.news|
  {
    && Sound(b, salt) && Numbered(b, n, n) && b.tried == map[]
    && (forall i :: 0 <= i < n ==> b.entries[i] == Fresh(f.news[i]))
    && (f.Exact() ==> b.untried == map[])
  }

  lemma AddNewSound(f: Peers, salt: Salt, b: Book, n: nat)
    requires WellFormed(f) && n < |f.news| && NewsIn(f, salt, b, n)
    ensures NewsIn(f, salt, AddNew(f, salt, b, n), n + 1)
  {
    hide Sound;
    var e := Fresh(f.news[n]);
    assert Unknown(b, e.Net());
    NewNumbered(b, salt, n, e);
  }

  lemma {:induction false} LoadNewSound(f: Peers, salt: Salt, n: nat)
    requires WellFormed(f) && n <= |f.news|
    ensures NewsIn(f, salt, LoadNew(f, salt, n), n)
    decreases n
  {
    hide NewsIn, WellFormed, AddNew;
    if n > 0 {
      LoadNewSound(f, salt, n - 1);
      AddNewSound(f, salt, LoadNew(f, salt, n - 1), n - 1);
    } else {
      NoNewsIn(f, salt);
    }
  }

  lemma NoNewsIn(f: Peers, salt: Salt)
    ensures NewsIn(f, salt, EMPTY, 0)
  {}

  ghost predicate TriedsIn(f: Peers, salt: Salt, s: State, n: nat)
    requires n <= |f.trieds|
  {
    && Sound(s.book, salt) && Numbered(s.book, |f.news|, s.nextId)
    && (forall j :: n <= j < |f.trieds| ==> Unknown(s.book, f.trieds[j].Net()))
    && (forall i :: 0 <= i < |f.news| ==> s.book.entries[i] == Fresh(f.news[i]))
    && (forall i :: |f.news| <= i < s.nextId ==> InTried(s.book, i))
    && (f.Exact() ==> s.book.untried == map[])
  }

  lemma AddTriedSound(f: Peers, salt: Salt, s: State, n: nat)
    requires WellFormed(f) && n < |f.trieds| && TriedsIn(f, salt, s, n)
    ensures TriedsIn(f, salt, AddTried(f, salt, s, n), n + 1)
  {
    hide Sound, SlotsOf, InTried;
    var e := Fresh(f.trieds[n]);
    if salt.TriedSlot(e.addr.service) !in s.book.tried {
      assert Unknown(s.book, e.Net()) by { assert Unknown(s.book, f.trieds[n].Net()); }
      TriedNumbered(s.book, salt, |f.news|, s.nextId, e);
      forall j | n + 1 <= j < |f.trieds| ensures Unknown(AddTried(f, salt, s, n).book, f.trieds[j].Net()) {
        assert Unknown(s.book, f.trieds[j].Net()) && f.trieds[n].Net() != f.trieds[j].Net();
      }
    }
  }

  lemma {:induction false} LoadTriedSound(f: Peers, salt: Salt, n: nat)
    requires WellFormed(f) && n <= |f.trieds|
    ensures TriedsIn(f, salt, LoadTried(f, salt, n), n)
    decreases n
  {
    hide TriedsIn, WellFormed, NewsIn, LoadNew, AddTried;
    if n > 0 {
      LoadTriedSound(f, salt, n - 1);
      AddTriedSound(f, salt, LoadTried(f, salt, n - 1), n - 1);
    } else {
      LoadNewSound(f, salt, |f.news|);
      NoTriedsIn(f, salt, LoadNew(f, salt, |f.news|));
    }
  }

  lemma NoTriedsIn(f: Peers, salt: Salt, b: Book)
    requires WellFormed(f) && NewsIn(f, salt, b, |f.news|)
    ensures TriedsIn(f, salt, State(b, |f.news|), 0)
  {
    hide Sound;
    forall j | 0 <= j < |f.trieds| ensures Unknown(b, f.trieds[j].Net()) {
      assert forall i :: i in b.entries ==> b.entries[i].Net() == f.news[i].Net();
    }
  }

  lemma TriedNumbered(b: Book, salt: Salt, nNew: nat, id: int, e: Entry)
    requires Sound(b, salt) && Numbered(b, nNew, id) && Unknown(b, e.Net())
    requires forall i :: nNew <= i < id ==> InTried(b, i)
    requires e.lastTry >= 0 && e.lastSuccess > 0 && salt.TriedSlot(e.addr.service) !in b.tried
    ensures var c := Book(b.entries[id := e], b.untried, b.tried[salt.TriedSlot(e.addr.service) := id]);
      Sound(c, salt) && Numbered(c, nNew, id + 1) && forall i :: nNew <= i <= id ==> InTried(c, i)
  {
    var k := salt.TriedSlot(e.addr.service);
    var b' := b.(entries := b.entries[id := e]);
    LoadEntrySound(b, salt, id, e);
    EnterTriedKeeps(b', salt, id);
    hide Sound, SlotsOf;
    var c := b'.(tried := b'.tried[k := id]);
    forall i | nNew <= i <= id ensures InTried(c, i) {
      EnteredOther(b', k, id, i);
      assert i < id ==> InTried(b, i);
    }
  }

  /** Loading references keeps the entries and the tried table. */
  ghost predicate Referenced(f: Peers, salt: Salt, b: Book) {
    var loaded := LoadTried(f, salt, |f.trieds|);
    && Sound(b, salt) && Numbered(b, |f.news|, loaded.nextId)
    && b.entries == loaded.book.entries && b.tried == loaded.book.tried
  }

  lemma LoadSlotSound(f: Peers, salt: Salt, b: Book, bucket: nat, index: int)
    requires Referenced(f, salt, b) && bucket < |f.buckets|
    ensures Referenced(f, salt, LoadSlot(f, salt, b, bucket, index))
  {
    hide Sound, LoadTried;
    if index in b.entries && index < |f.news| {
      assert !InTried(b, index);
      var s := Slot(bucket, salt.Position(true, bucket, b.entries[index].addr.service));
      if f.Exact() && s !in b.untried && |SlotsOf(b.untried, index)| < NEW_BUCKETS_PER_ADDRESS {
        FillSound(b, salt, s, index);
      }
    }
  }

  lemma {:induction false} LoadSlotsSound(f: Peers, salt: Salt, b: Book, bucket: nat, n: nat)
    requires Referenced(f, salt, b) && bucket < |f.buckets| && n <= |f.buckets[bucket]|
    ensures Referenced(f, salt, LoadSlots(f, salt, b, bucket, n))
    decreases n
  {
    hide Referenced, LoadSlot;
    if n > 0 {
      LoadSlotsSound(f, salt, b, bucket, n - 1);
      LoadSlotSound(f, salt, LoadSlots(f, salt, b, bucket, n - 1), bucket, f.buckets[bucket][n - 1]);
    }
  }

  lemma {:induction false} LoadBucketsSound(f: Peers, salt: Salt, m: nat)
    requires WellFormed(f) && m <= |f.buckets|
    ensures Referenced(f, salt, LoadBuckets(f, salt, m))
    decreases m
  {
    if m > 0 {
      LoadBucketsSound(f, salt, m - 1);
      hide Referenced, LoadSlots;
      LoadSlotsSound(f, salt, LoadBuckets(f, salt, m - 1), m - 1, |f.buckets[m - 1]|);
    } else {
      LoadTriedSound(f, salt, |f.trieds|);
    }
  }

  lemma PrunedConsistent(b: Book, salt: Salt, n: int)
    requires Sound(b, salt) && forall i :: i in b.entries ==> i < n
    ensures Consistent(Pruned(b, n), salt)
  {
    var c := Pruned(b, n);
    forall s | s in b.untried ensures b.untried[s] in c.entries {
      assert s in SlotsOf(b.untried, b.untried[s]);
    }
    forall s | s in b.tried ensures b.tried[s] in c.entries {
      assert s in SlotsOf(b.tried, b.tried[s]);
    }
    forall i | i in c.entries ensures EntrySound(c, i) && (InTried(c, i) || SlotsOf(c.untried, i) != {}) {
      assert EntrySound(b, i);
    }
    assert UntriedSound(c, salt) && TriedSound(c, salt) && NetsDistinct(c);
  }

  /** Whatever its version, its number of buckets and the references in them, a record of distinct peers loads. */
  lemma RestoredIsValid(f: Peers, salt: Salt)
    requires WellFormed(f)
    ensures ValidState(Restored(f, salt), salt)
  {
    LoadBucketsSound(f, salt, |f.buckets|);
    hide Sound, LoadTried, LoadBuckets;
    PrunedConsistent(LoadBuckets(f, salt, |f.buckets|), salt, LoadTried(f, salt, |f.trieds|).nextId);
  }

  ///////////////////////////////////////////////////////////////////////////////////////////////
  // Saving
  ///////////////////////////////////////////////////////////////////////////////////////////////

  /** The tried or the untried ids below n, in ascending order. */
  ghost function Ids(b: Book, tried: bool, n: int): seq<int> {
    if n <= 0 then []
    else Ids(b, tried, n - 1) + if n - 1 in b.entries && InTried(b, n - 1) == tried then [n - 1] else []
  }

  ghost function EntriesOf(b: Book, ids: seq<int>): seq<Entry>
    requires forall i :: 0 <= i < |ids| ==> ids[i] in b.entries
  {
    seq(|ids|, i requires 0 <= i < |ids| => Fresh(b.entries[ids[i]]))
  }

  ghost function SavedList(b: Book, tried: bool, n: int): seq<Entry> {
    if n <= 0 then [] else IdsKnown(b, tried, n); EntriesOf(b, Ids(b, tried, n))
  }

  /** The id that a reload gives an entry. */
  ghost function Number(s: State, id: int): nat {
    if InTried(s.book, id) then |Ids(s.book, false, s.nextId)| + |Ids(s.book, true, id)|
    else |Ids(s.book, false, id)|
  }

  ghost function Listed(s: State, bucket: nat, p: nat): seq<int> {
    if p == 0 then []
    else
      var t := Slot(bucket, p - 1);
      Listed(s, bucket, p - 1) + if t in s.book.untried then [Number(s, s.book.untried[t])] else []
  }

  /** A state whose ids can be listed. */
  ghost predicate Countable(s: State) {
    && s.nextId >= 0 && (forall i :: i in s.book.entries ==> 0 <= i < s.nextId)
    && (forall t :: t in s.book.untried ==> s.book.untried[t] in s.book.entries)
    && (forall t :: t in s.book.tried ==> s.book.tried[t] in s.book.entries)
  }

  ghost function SavedOf(s: State, key: nat): Peers
    requires Countable(s)
  {
    Peers(1, key, SavedList(s.book, false, s.nextId), SavedList(s.book, true, s.nextId),
          seq(NEW_BUCKET_COUNT, bucket requires 0 <= bucket < NEW_BUCKET_COUNT => Listed(s, bucket, BUCKET_SIZE)))
  }

  lemma {:induction false} IdsAre(b: Book, tried: bool, n: nat)
    ensures forall i :: i in Ids(b, tried, n) <==> 0 <= i < n && i in b.entries && InTried(b, i) == tried
    ensures |Ids(b, tried, n)| <= n
    decreases n
  {
    if n > 0 {
      IdsAre(b, tried, n - 1);
    }
  }

  lemma IdsKnown(b: Book, tried: bool, n: nat)
    ensures forall i :: 0 <= i < |Ids(b, tried, n)| ==> Ids(b, tried, n)[i] in b.entries
  {
    var ids := Ids(b, tried, n);
    IdsAre(b, tried, n);
    forall i | 0 <= i < |ids| ensures ids[i] in b.entries {
      var id := ids[i];
      assert id in ids;
    }
  }

  lemma {:induction false} IdsPrefix(b: Book, tried: bool, m: nat, n: nat)
    requires m <= n
    ensures Ids(b, tried, m) <= Ids(b, tried, n)
    decreases n
  {
    if m < n {
      IdsPrefix(b, tried, m, n - 1);
    }
  }

  /** An id's number is its position. */
  lemma IdAt(b: Book, tried: bool, n: nat, id: nat)
    requires id < n && id in b.entries && InTried(b, id) == tried
    ensures |Ids(b, tried, id)| < |Ids(b, tried, n)| && Ids(b, tried, n)[|Ids(b, tried, id)|] == id
  {
    hide InTried;
    IdsPrefix(b, tried, id + 1, n);
  }

  lemma {:induction false} IdsDistinct(b: Book, tried: bool, n: nat)
    ensures forall i, j :: 0 <= i < j < |Ids(b, tried, n)| ==> Ids(b, tried, n)[i] < Ids(b, tried, n)[j]
    decreases n
  {
    hide InTried;
    if n > 0 {
      IdsDistinct(b, tried, n - 1);
      IdsAre(b, tried, n - 1);
      var before := Ids(b, tried, n - 1);
      assert forall i :: 0 <= i < |before| ==> before[i] in before;
    }
  }

  /** The position of an id is its number. */
  lemma PositionOf(b: Book, tried: bool, n: nat, j: nat)
    requires j < |Ids(b, tried, n)|
    ensures var id := Ids(b, tried, n)[j];
      0 <= id < n && id in b.entries && InTried(b, id) == tried && |Ids(b, tried, id)| == j
  {
    var id := Ids(b, tried, n)[j];
    assert id in Ids(b, tried, n);
    IdsAre(b, tried, n);
    IdAt(b, tried, n, id);
    IdsDistinct(b, tried, n);
  }

  /** Different entries get different numbers. */
  lemma NumberInjective(s: State, i: int, j: int)
    requires Countable(s) && i in s.book.entries && j in s.book.entries && Number(s, i) == Number(s, j)
    ensures i == j
  {
    hide InTried, Ids;
    IdAt(s.book, InTried(s.book, i), s.nextId, i);
    IdAt(s.book, InTried(s.book, j), s.nextId, j);
  }

  ///////////////////////////////////////////////////////////////////////////////////////////////
  // Loading what was saved
  ///////////////////////////////////////////////////////////////////////////////////////////////

  /** Entry i of one of the saved lists. */
  lemma SavedEntry(s: State, key: nat, tried: bool, i: nat)
    requires Countable(s) && i < |Ids(s.book, tried, s.nextId)|
    ensures var (f, id) := (SavedOf(s, key), Ids(s.book, tried, s.nextId)[i]);
      && |f.news| == |Ids(s.book, false, s.nextId)| && |f.trieds| == |Ids(s.book, true, s.nextId)|
      && 0 <= id && id in s.book.entries && InTried(s.book, id) == tried && |Ids(s.book, tried, id)| == i
      && (if tried then f.trieds[i] else f.news[i]) == Fresh(s.book.entries[id])
  {
    hide InTried, Ids;
    PositionOf(s.book, tried, s.nextId, i);
    assert Ids(s.book, tried, s.nextId)[i] in Ids(s.book, tried, s.nextId);
  }

  lemma EnoughForSaving(s: State, salt: Salt)
    requires ValidState(s, salt)
    ensures Countable(s)
    ensures forall i :: i in s.book.entries ==> s.book.entries[i].lastSuccess >= 0
    ensures forall i :: i in s.book.entries && InTried(s.book, i) ==> s.book.entries[i].lastSuccess > 0
  {
    forall i | i in s.book.entries
      ensures 0 <= i && s.book.entries[i].lastSuccess >= 0
      ensures InTried(s.book, i) ==> s.book.entries[i].lastSuccess > 0
    {
      assert EntrySound(s.book, i);
      if InTried(s.book, i) {
        var k :| k in SlotsOf(s.book.tried, i);
        assert s.book.tried[k] == i;
      }
    }
  }

  /** Two saved peers with one network address are the same entry of the same list. */
  lemma {:induction false} SavedDistinct(s: State, salt: Salt, key: nat, t1: bool, i: nat, t2: bool, j: nat)
    requires ValidState(s, salt) && Countable(s)
    requires i < |Ids(s.book, t1, s.nextId)| && j < |Ids(s.book, t2, s.nextId)|
    requires var (id1, id2) := (Ids(s.book, t1, s.nextId)[i], Ids(s.book, t2, s.nextId)[j]);
      id1 in s.book.entries && id2 in s.book.entries && s.book.entries[id1].Net() == s.book.entries[id2].Net()
    ensures t1 == t2 && i == j
  {
    hide InTried, Ids, UntriedSound, TriedSound, EntrySound, SavedOf;
    SavedEntry(s, key, t1, i);
    SavedEntry(s, key, t2, j);
  }

  lemma SavedIsWellFormed(s: State, salt: Salt, key: nat)
    requires ValidState(s, salt)
    ensures Countable(s) && WellFormed(SavedOf(s, key))
  {
    hide InTried, Ids, Sound, SavedOf;
    EnoughForSaving(s, salt);
    hide Consistent, Countable;
    var f := SavedOf(s, key);
    SavedSizes(s, key);
    forall i, j | 0 <= i < j < |f.news| ensures f.news[i].Net() != f.news[j].Net() {
      SavedEntry(s, key, false, i);
      SavedEntry(s, key, false, j);
      if f.news[i].Net() == f.news[j].Net() {
        SavedDistinct(s, salt, key, false, i, false, j);
      }
    }
    forall i, j | 0 <= i < j < |f.trieds| ensures f.trieds[i].Net() != f.trieds[j].Net() {
      SavedEntry(s, key, true, i);
      SavedEntry(s, key, true, j);
      if f.trieds[i].Net() == f.trieds[j].Net() {
        SavedDistinct(s, salt, key, true, i, true, j);
      }
    }
    forall i, j | 0 <= i < |f.news| && 0 <= j < |f.trieds| ensures f.news[i].Net() != f.trieds[j].Net() {
      SavedEntry(s, key, false, i);
      SavedEntry(s, key, true, j);
      if f.news[i].Net() == f.trieds[j].Net() {
        SavedDistinct(s, salt, key, false, i, true, j);
      }
    }
    forall i | 0 <= i < |f.news| ensures f.news[i].lastSuccess >= 0 {
      SavedEntry(s, key, false, i);
    }
    forall i | 0 <= i < |f.trieds| ensures f.trieds[i].lastSuccess > 0 {
      SavedEntry(s, key, true, i);
    }
  }

  lemma SavedSizes(s: State, key: nat)
    requires Countable(s)
    ensures var f := SavedOf(s, key);
      |f.news| == |Ids(s.book, false, s.nextId)| && |f.trieds| == |Ids(s.book, true, s.nextId)| && f.Exact()
  {}

  /** The tried entries with numbers below the next id are back, in their own slots. */
  ghost predicate TriedBack(s: State, c: State) {
    && (forall k :: k in c.book.tried <==> k in s.book.tried && Number(s, s.book.tried[k]) < c.nextId)
    && (forall k :: k in c.book.tried ==> c.book.tried[k] == Number(s, s.book.tried[k]))
    && (forall id :: id in s.book.entries && InTried(s.book, id) && Number(s, id) < c.nextId ==>
          Number(s, id) in c.book.entries && c.book.entries[Number(s, id)] == Fresh(s.book.entries[id]))
  }

  lemma TriedPlace(b: Book, salt: Salt, id: int)
    requires TriedSound(b, salt) && id in b.entries && InTried(b, id)
    ensures var k := salt.TriedSlot(b.entries[id].addr.service);
      && k in b.tried && b.tried[k] == id
      && forall t :: t in b.tried && b.tried[t] == id ==> t == k
  {
    var k :| k in SlotsOf(b.tried, id);
  }

  lemma TriedNumber(s: State, salt: Salt, key: nat, n: nat)
    requires ValidState(s, salt) && Countable(s) && n < |SavedOf(s, key).trieds|
    ensures n < |Ids(s.book, true, s.nextId)|
    ensures var (f, id) := (SavedOf(s, key), Ids(s.book, true, s.nextId)[n]);
      && id in s.book.entries && InTried(s.book, id) && Number(s, id) == |f.news| + n
      && f.trieds[n] == Fresh(s.book.entries[id])
      && var k := salt.TriedSlot(f.trieds[n].addr.service);
         && k in s.book.tried && s.book.tried[k] == id
         && forall t :: t in s.book.tried && s.book.tried[t] == id ==> t == k
  {
    hide Ids, InTried, UntriedSound, NetsDistinct, EntrySound, SavedOf;
    SavedSizes(s, key);
    SavedEntry(s, key, true, n);
    TriedPlace(s.book, salt, Ids(s.book, true, s.nextId)[n]);
  }

  lemma TriedBackStep(s: State, c: State, id: int, k: Slot)
    requires Countable(s) && TriedBack(s, c) && id in s.book.entries && Number(s, id) == c.nextId
    requires k in s.book.tried && s.book.tried[k] == id && forall t :: t in s.book.tried && s.book.tried[t] == id ==> t == k
    ensures k !in c.book.tried
    ensures TriedBack(s, State(Book(c.book.entries[c.nextId := Fresh(s.book.entries[id])], c.book.untried,
                                    c.book.tried[k := c.nextId]), c.nextId + 1))
  {
    hide Number, InTried, Ids;
    forall i | i in s.book.entries && Number(s, i) == c.nextId ensures i == id {
      NumberInjective(s, i, id);
    }
    assert forall t :: t in s.book.tried ==> s.book.tried[t] in s.book.entries;
    hide Countable;
  }

  lemma AddTriedBack(s: State, salt: Salt, key: nat, c: State, n: nat)
    requires ValidState(s, salt) && Countable(s) && n < |SavedOf(s, key).trieds|
    requires c.nextId == |SavedOf(s, key).news| + n && TriedBack(s, c)
    ensures var d := AddTried(SavedOf(s, key), salt, c, n); d.nextId == c.nextId + 1 && TriedBack(s, d)
  {
    hide SavedOf, ValidState, Number, InTried, Ids, TriedBack, Countable;
    TriedNumber(s, salt, key, n);
    var id := Ids(s.book, true, s.nextId)[n];
    TriedBackStep(s, c, id, salt.TriedSlot(s.book.entries[id].addr.service));
  }

  lemma {:induction false} LoadTriedBack(s: State, salt: Salt, key: nat, n: nat)
    requires ValidState(s, salt) && Countable(s) && n <= |SavedOf(s, key).trieds|
    ensures var c := LoadTried(SavedOf(s, key), salt, n); c.nextId == |SavedOf(s, key).news| + n && TriedBack(s, c)
    decreases n
  {
    hide SavedOf, ValidState, TriedBack, AddTried;
    var f := SavedOf(s, key);
    if n > 0 {
      LoadTriedBack(s, salt, key, n - 1);
      AddTriedBack(s, salt, key, LoadTried(f, salt, n - 1), n - 1);
    } else {
      SavedIsWellFormed(s, salt, key);
      LoadNewSound(f, salt, |f.news|);
      NoneTriedBack(s, salt, key, State(LoadNew(f, salt, |f.news|), |f.news|));
    }
  }

  lemma NoneTriedBack(s: State, salt: Salt, key: nat, c: State)
    requires Countable(s) && ValidState(s, salt) && c.nextId == |SavedOf(s, key).news| && c.book.tried == map[]
    ensures TriedBack(s, c)
  {
    SavedSizes(s, key);
    forall k | k in s.book.tried ensures Number(s, s.book.tried[k]) >= c.nextId {
      assert k in SlotsOf(s.book.tried, s.book.tried[k]);
    }
  }

  /** Every entry is back under its number. */
  ghost predicate EntriesBack(s: State, c: Book) {
    && (forall id :: id in s.book.entries ==>
          Number(s, id) in c.entries && c.entries[Number(s, id)] == Fresh(s.book.entries[id]))
    && (forall j :: j in c.entries ==> exists id :: id in s.book.entries && Number(s, id) == j)
  }

  lemma NewEntryBack(s: State, salt: Salt, key: nat, id: int)
    requires Countable(s) && id in s.book.entries && !InTried(s.book, id)
    ensures var f := SavedOf(s, key);
      Number(s, id) < |f.news| && f.news[Number(s, id)] == Fresh(s.book.entries[id])
  {
    hide Ids, InTried, SavedOf;
    SavedSizes(s, key);
    IdAt(s.book, false, s.nextId, id);
    SavedEntry(s, key, false, Number(s, id));
  }

  lemma TriedEntryBack(s: State, salt: Salt, key: nat, id: int)
    requires Countable(s) && id in s.book.entries && InTried(s.book, id)
    ensures var f := SavedOf(s, key); |f.news| <= Number(s, id) < |f.news| + |f.trieds|
  {
    hide Ids, InTried, SavedOf;
    SavedSizes(s, key);
    IdAt(s.book, true, s.nextId, id);
  }

  lemma NumberTaken(s: State, salt: Salt, key: nat, j: nat)
    requires Countable(s) && j < |SavedOf(s, key).news| + |SavedOf(s, key).trieds|
    ensures exists id :: id in s.book.entries && Number(s, id) == j
  {
    hide Ids, InTried, SavedOf;
    SavedSizes(s, key);
    var nNew := |Ids(s.book, false, s.nextId)|;
    var tried := j >= nNew;
    var i := if tried then j - nNew else j;
    SavedEntry(s, key, tried, i);
    assert Number(s, Ids(s.book, tried, s.nextId)[i]) == j;
  }

  ghost predicate ListsLoaded(s: State, salt: Salt, key: nat, c: State) {
    && ValidState(s, salt) && Countable(s)
    && TriedsIn(SavedOf(s, key), salt, c, |SavedOf(s, key).trieds|) && TriedBack(s, c)
    && c.nextId == |SavedOf(s, key).news| + |SavedOf(s, key).trieds|
  }

  lemma EntryBack(s: State, salt: Salt, key: nat, c: State, id: int)
    requires ListsLoaded(s, salt, key, c) && id in s.book.entries
    ensures Number(s, id) in c.book.entries && c.book.entries[Number(s, id)] == Fresh(s.book.entries[id])
    ensures InTried(s.book, id) ==> Number(s, id) < c.nextId
  {
    hide SavedOf, Number, InTried, Sound, ValidState, Countable;
    if InTried(s.book, id) {
      TriedEntryBack(s, salt, key, id);
    } else {
      NewEntryBack(s, salt, key, id);
    }
  }

  lemma TriedSlotBack(s: State, salt: Salt, key: nat, c: State, k: Slot)
    requires ListsLoaded(s, salt, key, c)
    ensures k in c.book.tried <==> k in s.book.tried
  {
    hide Number, SavedOf, InTried, Sound, TriedsIn;
    if k in s.book.tried {
      TriedIsIn(s.book, k);
      EntryBack(s, salt, key, c, s.book.tried[k]);
    }
  }

  /** After the two lists nothing is lost: no two tried peers compete for a slot. */
  lemma ListsBack(s: State, salt: Salt, key: nat)
    requires ValidState(s, salt) && Countable(s)
    ensures var c := LoadTried(SavedOf(s, key), salt, |SavedOf(s, key).trieds|);
      && c.nextId == |SavedOf(s, key).news| + |SavedOf(s, key).trieds|
      && EntriesBack(s, c.book) && TriedBack(s, c)
      && c.book.tried.Keys == s.book.tried.Keys
  {
    hide SavedOf, ValidState, LoadTried, Number, InTried, WellFormed, TriedsIn, TriedBack, Countable;
    var f := SavedOf(s, key);
    var c := LoadTried(f, salt, |f.trieds|);
    SavedIsWellFormed(s, salt, key);
    LoadTriedBack(s, salt, key, |f.trieds|);
    LoadTriedSound(f, salt, |f.trieds|);
    forall id | id in s.book.entries
      ensures Number(s, id) in c.book.entries && c.book.entries[Number(s, id)] == Fresh(s.book.entries[id])
    {
      EntryBack(s, salt, key, c, id);
    }
    forall j | j in c.book.entries ensures exists id :: id in s.book.entries && Number(s, id) == j {
      IdRange(f, salt, c, |f.trieds|, j);
      NumberTaken(s, salt, key, j);
    }
    forall k ensures k in c.book.tried <==> k in s.book.tried {
      TriedSlotBack(s, salt, key, c, k);
    }
  }

  lemma IdRange(f: Peers, salt: Salt, c: State, n: nat, j: int)
    requires n <= |f.trieds| && TriedsIn(f, salt, c, n) && j in c.book.entries
    ensures 0 <= j < c.nextId
  {}

  lemma TriedIsIn(b: Book, k: Slot)
    requires k in b.tried
    ensures InTried(b, b.tried[k])
  {
    assert k in SlotsOf(b.tried, b.tried[k]);
  }

  /** The references of the positions before (bucket, p) are back. */
  ghost predicate SlotsBack(s: State, c: Book, bucket: nat, p: nat) {
    && (forall t :: t in c.untried <==> t in s.book.untried && (t.bucket < bucket || (t.bucket == bucket && t.pos < p)))
    && (forall t :: t in c.untried ==> c.untried[t] == Number(s, s.book.untried[t]))
  }

  /** A reference finds its position free and its entry below the limit. */
  lemma RoomForReference(s: State, salt: Salt, c: Book, t: Slot)
    requires ValidState(s, salt) && Countable(s) && t in s.book.untried && SlotsBack(s, c, t.bucket, t.pos)
    ensures t !in c.untried
    ensures |SlotsOf(c.untried, Number(s, s.book.untried[t]))| < NEW_BUCKETS_PER_ADDRESS
  {
    var id := s.book.untried[t];
    var held := SlotsOf(c.untried, Number(s, id));
    forall u | u in held ensures u in SlotsOf(s.book.untried, id) - {t} {
      NumberInjective(s, s.book.untried[u], id);
    }
    SubsetSize(held, SlotsOf(s.book.untried, id) - {t});
    assert t in SlotsOf(s.book.untried, id);
    assert EntrySound(s.book, id);
  }

  lemma UntriedPlace(s: State, salt: Salt, key: nat, t: Slot)
    requires ValidState(s, salt) && Countable(s) && t in s.book.untried
    ensures var id := s.book.untried[t];
      && id in s.book.entries && t.bucket < NEW_BUCKET_COUNT && t.pos < BUCKET_SIZE
      && t.pos == salt.Position(true, t.bucket, s.book.entries[id].addr.service)
      && 0 <= Number(s, id) < |SavedOf(s, key).news|
  {
    NewEntryBack(s, salt, key, s.book.untried[t]);
  }

  lemma SlotBack(s: State, salt: Salt, key: nat, c: Book, t: Slot)
    requires ValidState(s, salt) && Countable(s) && t in s.book.untried
    requires EntriesBack(s, c) && SlotsBack(s, c, t.bucket, t.pos)
    ensures var d := LoadSlot(SavedOf(s, key), salt, c, t.bucket, Number(s, s.book.untried[t]));
      d.entries == c.entries && d.tried == c.tried && SlotsBack(s, d, t.bucket, t.pos + 1)
  {
    hide Number, SlotsOf, ValidState, SavedOf;
    RoomForReference(s, salt, c, t);
    UntriedPlace(s, salt, key, t);
    SavedSizes(s, key);
  }

  lemma {:induction false} ListedPrefix(s: State, bucket: nat, p: nat, q: nat)
    requires p <= q
    ensures Listed(s, bucket, p) <= Listed(s, bucket, q)
    decreases q
  {
    if p < q {
      ListedPrefix(s, bucket, p, q - 1);
    }
  }

  /** The list of a saved bucket, position by position. */
  lemma ListedStep(s: State, key: nat, bucket: nat, p: nat)
    requires Countable(s) && bucket < NEW_BUCKET_COUNT && p < BUCKET_SIZE
    ensures var (f, t, before) := (SavedOf(s, key), Slot(bucket, p), |Listed(s, bucket, p)|);
      && |f.buckets| == NEW_BUCKET_COUNT && before <= |Listed(s, bucket, p + 1)| <= |f.buckets[bucket]|
      && if t in s.book.untried
         then |Listed(s, bucket, p + 1)| == before + 1 && f.buckets[bucket][before] == Number(s, s.book.untried[t])
         else |Listed(s, bucket, p + 1)| == before
  {
    hide Number, Ids;
    ListedPrefix(s, bucket, p + 1, BUCKET_SIZE);
    assert SavedOf(s, key).buckets[bucket] == Listed(s, bucket, BUCKET_SIZE);
  }

  lemma {:induction false} LoadSlotsBack(s: State, salt: Salt, key: nat, c: Book, bucket: nat, p: nat)
    requires ValidState(s, salt) && Countable(s) && bucket < NEW_BUCKET_COUNT && p <= BUCKET_SIZE
    requires EntriesBack(s, c) && SlotsBack(s, c, bucket, 0)
    ensures |SavedOf(s, key).buckets| == NEW_BUCKET_COUNT && |Listed(s, bucket, p)| <= |SavedOf(s, key).buckets[bucket]|
    ensures var d := LoadSlots(SavedOf(s, key), salt, c, bucket, |Listed(s, bucket, p)|);
      d.entries == c.entries && d.tried == c.tried && SlotsBack(s, d, bucket, p)
    decreases p
  {
    hide ValidState, Countable, EntriesBack, LoadSlot, Number, SavedOf, SlotsBack, Listed;
    if p > 0 {
      var t := Slot(bucket, p - 1);
      LoadSlotsBack(s, salt, key, c, bucket, p - 1);
      ListedStep(s, key, bucket, p - 1);
      var d := LoadSlots(SavedOf(s, key), salt, c, bucket, |Listed(s, bucket, p - 1)|);
      if t in s.book.untried {
        SameEntriesBack(s, c, d);
        SlotBack(s, salt, key, d, t);
      } else {
        NoSlotBack(s, d, t);
      }
    } else {
      NothingListed(s, key, bucket);
    }
  }

  lemma NothingListed(s: State, key: nat, bucket: nat)
    requires Countable(s) && bucket < NEW_BUCKET_COUNT
    ensures |SavedOf(s, key).buckets| == NEW_BUCKET_COUNT && |Listed(s, bucket, 0)| == 0
  {}

  lemma NoSlotBack(s: State, c: Book, t: Slot)
    requires t !in s.book.untried && SlotsBack(s, c, t.bucket, t.pos)
    ensures SlotsBack(s, c, t.bucket, t.pos + 1)
  {
    hide Number;
    assert forall u: Slot :: u in s.book.untried && u.bucket == t.bucket && u.pos == t.pos ==> u == t;
  }

  lemma SameEntriesBack(s: State, c: Book, d: Book)
    requires EntriesBack(s, c) && d.entries == c.entries
    ensures EntriesBack(s, d)
  {}

  lemma WholeBucket(s: State, key: nat, bucket: nat)
    requires Countable(s) && bucket < NEW_BUCKET_COUNT
    ensures |SavedOf(s, key).buckets| == NEW_BUCKET_COUNT
    ensures |SavedOf(s, key).buckets[bucket]| == |Listed(s, bucket, BUCKET_SIZE)|
  {}

  lemma NoReferences(s: State, salt: Salt, key: nat)
    requires ValidState(s, salt) && Countable(s)
    ensures var f := SavedOf(s, key); |f.buckets| == NEW_BUCKET_COUNT && LoadTried(f, salt, |f.trieds|).book.untried == map[]
  {
    SavedSizes(s, key);
    SavedIsWellFormed(s, salt, key);
    LoadTriedSound(SavedOf(s, key), salt, |SavedOf(s, key).trieds|);
  }

  lemma {:induction false} LoadBucketsBack(s: State, salt: Salt, key: nat, m: nat)
    requires ValidState(s, salt) && Countable(s) && m <= NEW_BUCKET_COUNT
    ensures var f := SavedOf(s, key);
      && |f.buckets| == NEW_BUCKET_COUNT
      && var (c, d) := (LoadTried(f, salt, |f.trieds|).book, LoadBuckets(f, salt, m));
         d.entries == c.entries && d.tried == c.tried && SlotsBack(s, d, m, 0)
    decreases m
  {
    hide ValidState, Countable, LoadSlots, Number, SavedOf, LoadTried, EntriesBack, TriedBack, Listed;
    var f := SavedOf(s, key);
    NoReferences(s, salt, key);
    if m > 0 {
      hide SlotsBack;
      ListsBack(s, salt, key);
      WholeBucket(s, key, m - 1);
      LoadBucketsBack(s, salt, key, m - 1);
      var c := LoadBuckets(f, salt, m - 1);
      SameEntriesBack(s, LoadTried(f, salt, |f.trieds|).book, c);
      LoadSlotsBack(s, salt, key, c, m - 1, BUCKET_SIZE);
      NextBucket(s, salt, key, LoadBuckets(f, salt, m), m - 1);
    }
  }

  lemma NextBucket(s: State, salt: Salt, key: nat, c: Book, bucket: nat)
    requires ValidState(s, salt) && Countable(s) && SlotsBack(s, c, bucket, BUCKET_SIZE)
    ensures SlotsBack(s, c, bucket + 1, 0)
  {
    hide Number, SavedOf;
    forall t | t in s.book.untried ensures t.pos < BUCKET_SIZE {
      UntriedPlace(s, salt, key, t);
    }
  }

  /** The book under new numbers. */
  ghost predicate SameUpToIds(s: State, c: Book) {
    && EntriesBack(s, c)
    && c.untried.Keys == s.book.untried.Keys && (forall t :: t in c.untried ==> c.untried[t] == Number(s, s.book.untried[t]))
    && c.tried.Keys == s.book.tried.Keys && (forall t :: t in c.tried ==> c.tried[t] == Number(s, s.book.tried[t]))
  }

  /** Nothing is stray after the positions are loaded, so nothing is pruned. */
  lemma NothingPruned(s: State, salt: Salt, c: Book, n: int)
    requires ValidState(s, salt) && SameUpToIds(s, c)
    ensures Pruned(c, n) == c
  {
    hide ValidState, Stray, Number;
    forall j | j in c.entries ensures !Stray(c, j) {
      var id :| id in s.book.entries && Number(s, id) == j;
      NotStray(s, salt, c, id);
    }
  }

  lemma NotStray(s: State, salt: Salt, c: Book, id: int)
    requires ValidState(s, salt) && SameUpToIds(s, c) && id in s.book.entries
    ensures !Stray(c, Number(s, id))
  {
    hide Number, EntriesBack, UntriedSound, TriedSound, NetsDistinct, EntrySound;
    if InTried(s.book, id) {
      var k :| k in SlotsOf(s.book.tried, id);
      assert k in SlotsOf(c.tried, Number(s, id));
    } else {
      var t :| t in SlotsOf(s.book.untried, id);
      assert t in SlotsOf(c.untried, Number(s, id));
    }
  }

  /**
   A book that is saved and loaded again is the same book up to the numbering of its entries and
   the times of the last tries: every entry, every tried slot and every "new" slot is back, nothing
   is lost to collisions, and the result is consistent.
   */
  lemma SaveAndLoad(s: State, salt: Salt, key: nat)
    requires ValidState(s, salt)
    ensures Countable(s)
    ensures var r := Restored(SavedOf(s, key), salt);
      ValidState(r, salt) && SameUpToIds(s, r.book)
    ensures forall i, j :: i in s.book.entries && j in s.book.entries && Number(s, i) == Number(s, j) ==> i == j
    ensures |Restored(SavedOf(s, key), salt).book.entries.Keys| == |s.book.entries.Keys|
  {
    EnoughForSaving(s, salt);
    SavedIsWellFormed(s, salt, key);
    var f := SavedOf(s, key);
    RestoredIsValid(f, salt);
    ListsBack(s, salt, key);
    LoadBucketsBack(s, salt, key, NEW_BUCKET_COUNT);
    hide ValidState, Countable, Number, SavedOf, LoadTried, LoadBuckets, WellFormed;
    forall i, j | i in s.book.entries && j in s.book.entries && Number(s, i) == Number(s, j) ensures i == j {
      NumberInjective(s, i, j);
    }
    var c := LoadBuckets(f, salt, NEW_BUCKET_COUNT);
    AllBack(s, salt, key, LoadTried(f, salt, |f.trieds|), c);
    NothingPruned(s, salt, c, LoadTried(f, salt, |f.trieds|).nextId);
    LoadTriedBack(s, salt, key, |f.trieds|);
    LoadTriedSound(f, salt, |f.trieds|);
    SameSize(s, salt, key, LoadTried(f, salt, |f.trieds|));
  }

  ghost function Range(n: nat): (r: set<int>)
    ensures |r| == n && forall i :: i in r <==> 0 <= i < n
  {
    if n == 0 then {} else Range(n - 1) + {n - 1}
  }

  /** The loaded ids are as many as the entries saved. */
  lemma SameSize(s: State, salt: Salt, key: nat, c: State)
    requires ListsLoaded(s, salt, key, c)
    ensures |c.book.entries.Keys| == |s.book.entries.Keys|
  {
    SavedSizes(s, key);
    hide SavedOf, ValidState, Sound, TriedBack, Ids;
    assert c.book.entries.Keys == Range(c.nextId);
    IdsCounted(s.book, s.nextId);
    assert (set i | i in s.book.entries && 0 <= i < s.nextId) == s.book.entries.Keys;
  }

  lemma AllBack(s: State, salt: Salt, key: nat, loaded: State, c: Book)
    requires ValidState(s, salt) && Countable(s)
    requires EntriesBack(s, loaded.book) && TriedBack(s, loaded) && loaded.book.tried.Keys == s.book.tried.Keys
    requires c.entries == loaded.book.entries && c.tried == loaded.book.tried && SlotsBack(s, c, NEW_BUCKET_COUNT, 0)
    ensures SameUpToIds(s, c)
  {
    hide Number, SavedOf;
    forall t | t in s.book.untried ensures t in c.untried {
      UntriedPlace(s, salt, key, t);
    }
  }

  ///////////////////////////////////////////////////////////////////////////////////////////////
  // Counting
  ///////////////////////////////////////////////////////////////////////////////////////////////

  lemma {:induction false} IdsCounted(b: Book, n: nat)
    ensures |Ids(b, false, n)| + |Ids(b, true, n)| == |set i | i in b.entries && 0 <= i < n|
    decreases n
  {
    var below := set i | i in b.entries && 0 <= i < n;
    if n == 0 {
      assert below == {};
    } else {
      IdsCounted(b, n - 1);
      var before := set i | i in b.entries && 0 <= i < n - 1;
      assert below == before + if n - 1 in b.entries then {n - 1} else {};
    }
  }

  ghost function SlotsBelow(t: Table, n: int): set<Slot> {
    set k | k in t && t[k] < n
  }

  lemma NoSlotsBelow(t: Table)
    requires forall k :: k in t ==> t[k] >= 0
    ensures SlotsBelow(t, 0) == {}
  {}

  lemma SlotsBelowStep(t: Table, n: int)
    ensures |SlotsBelow(t, n + 1)| == |SlotsBelow(t, n)| + |SlotsOf(t, n)|
  {
    assert SlotsBelow(t, n + 1) == SlotsBelow(t, n) + SlotsOf(t, n);
    assert SlotsBelow(t, n) !! SlotsOf(t, n);
  }

  lemma OneTriedSlot(b: Book, salt: Salt, id: int)
    requires TriedSound(b, salt)
    ensures |SlotsOf(b.tried, id)| == if id in b.entries && InTried(b, id) then 1 else 0
  {
    if k :| k in SlotsOf(b.tried, id) {
      TriedSlotUnique(b, salt, k);
    } else {
      assert SlotsOf(b.tried, id) == {};
    }
  }

  lemma {:induction false} TriedsCounted(b: Book, salt: Salt, n: nat)
    requires TriedSound(b, salt) && forall k :: k in b.tried ==> b.tried[k] >= 0
    ensures |Ids(b, true, n)| == |SlotsBelow(b.tried, n)|
    decreases n
  {
    hide SlotsBelow, InTried, SlotsOf, TriedSound;
    if n == 0 {
      NoSlotsBelow(b.tried);
    } else {
      TriedsCounted(b, salt, n - 1);
      SlotsBelowStep(b.tried, n - 1);
      OneTriedSlot(b, salt, n - 1);
    }
  }

  /** The assertions of Serialize: each list has exactly as many entries as its counter says. */
  lemma ListSizes(s: State, salt: Salt)
    requires ValidState(s, salt)
    ensures |Ids(s.book, true, s.nextId)| == |s.book.tried.Keys|
    ensures |Ids(s.book, false, s.nextId)| == |s.book.entries.Keys| - |s.book.tried.Keys|
  {
    EnoughForSaving(s, salt);
    TriedsCounted(s.book, salt, s.nextId);
    IdsCounted(s.book, s.nextId);
    hide Ids, InTried, Consistent;
    assert SlotsBelow(s.book.tried, s.nextId) == s.book.tried.Keys;
    assert (set i | i in s.book.entries && 0 <= i < s.nextId) == s.book.entries.Keys;
  }

  lemma SavedListStep(b: Book, tried: bool, n: nat, nextId: nat)
    requires n < nextId
    ensures SavedList(b, tried, n + 1) ==
            SavedList(b, tried, n) + if n in b.entries && InTried(b, n) == tried then [Fresh(b.entries[n])] else []
    ensures |SavedList(b, tried, n + 1)| == |Ids(b, tried, n + 1)| <= |Ids(b, tried, nextId)|
  {
    IdsKnown(b, tried, n);
    IdsKnown(b, tried, n + 1);
    IdsPrefix(b, tried, n + 1, nextId);
  }

  /** A positive reference count is the same as not being in the tried table. */
  lemma CountedIsUntried(s: State, salt: Salt, id: int)
    requires ValidState(s, salt) && id in s.book.entries
    ensures |SlotsOf(s.book.untried, id)| > 0 <==> !InTried(s.book, id)
  {
    if InTried(s.book, id) {
      forall t | t in s.book.untried ensures s.book.untried[t] != id {}
      assert SlotsOf(s.book.untried, id) == {};
    }
  }

  ///////////////////////////////////////////////////////////////////////////////////////////////
  // The steps of loading, for the method that performs them
  ///////////////////////////////////////////////////////////////////////////////////////////////

  lemma {:induction false} NextNew(f: Peers, salt: Salt, n: nat)
    requires WellFormed(f) && n < |f.news|
    ensures var b := LoadNew(f, salt, n);
      && Unknown(b, f.news[n].Net()) && n !in b.entries
      && SlotsOf(b.untried, n) == {} && SlotsOf(b.tried, n) == {}
  {
    LoadNewSound(f, salt, n);
    hide Sound;
  }

  lemma NextTried(f: Peers, salt: Salt, n: nat)
    requires WellFormed(f) && n < |f.trieds|
    ensures var s := LoadTried(f, salt, n);
      && Unknown(s.book, f.trieds[n].Net()) && s.nextId !in s.book.entries && s.nextId >= 0
      && SlotsOf(s.book.untried, s.nextId) == {} && SlotsOf(s.book.tried, s.nextId) == {}
  {
    LoadTriedSound(f, salt, n);
    hide Sound;
  }

  ghost predicate Grown(f: Peers, s: State) {
    s.nextId == |f.news| + |s.book.tried.Keys| && |s.book.entries.Keys| == s.nextId
  }

  lemma GrowthStep(f: Peers, salt: Salt, s: State, n: nat)
    requires n < |f.trieds| && Grown(f, s) && s.nextId !in s.book.entries
    ensures Grown(f, AddTried(f, salt, s, n))
  {
    var k := salt.TriedSlot(f.trieds[n].addr.service);
    var after := AddTried(f, salt, s, n);
    if k !in s.book.tried {
      assert after.book.tried.Keys == s.book.tried.Keys + {k};
      assert after.book.entries.Keys == s.book.entries.Keys + {s.nextId};
    }
  }

  lemma {:induction false} TriedGrowth(f: Peers, salt: Salt, n: nat)
    requires WellFormed(f) && n <= |f.trieds|
    ensures Grown(f, LoadTried(f, salt, n))
    decreases n
  {
    hide AddTried, Grown, WellFormed, NewsIn, Unknown;
    if n > 0 {
      TriedGrowth(f, salt, n - 1);
      NextTried(f, salt, n - 1);
      GrowthStep(f, salt, LoadTried(f, salt, n - 1), n - 1);
    } else {
      LoadNewSound(f, salt, |f.news|);
      NoneGrown(f, salt, LoadNew(f, salt, |f.news|));
    }
  }

  lemma NoneGrown(f: Peers, salt: Salt, b: Book)
    requires NewsIn(f, salt, b, |f.news|)
    ensures Grown(f, State(b, |f.news|))
  {
    hide Sound;
    assert b.entries.Keys == Range(|f.news|);
    assert b.tried.Keys == {};
  }

  lemma ReferencedIds(f: Peers, salt: Salt, b: Book, index: int)
    requires Referenced(f, salt, b)
    ensures 0 <= index < |f.news| ==> index in b.entries
    ensures index in b.entries ==> index >= 0
  {}

  lemma PrunedStep(b: Book, n: nat)
    ensures Pruned(b, n + 1).entries ==
            if n in b.entries && Stray(b, n) then Pruned(b, n).entries - {n} else Pruned(b, n).entries
    ensures n in b.entries <==> n in Pruned(b, n).entries
  {}

  lemma PrunedNone(b: Book)
    requires forall i :: i in b.entries ==> i >= 0
    ensures Pruned(b, 0) == b
  {
    assert Pruned(b, 0).entries == b.entries;
  }
}
