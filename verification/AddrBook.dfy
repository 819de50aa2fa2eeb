/**
 The peer address book that CAddrMan maintains, without any of its redundant indexes.

 A book is a set of entries under small integer ids and two hash tables of slots.  CAddrMan (see
 AddrMan.dfy) keeps the same information plus reference counts, "in tried" flags, a shuffled
 vector of ids, an index by network address and two counters; its methods are proved to follow
 the operations below, and the laws of the whole structure are proved here once.
 */
module AddrBook {
  import opened Collections
  import Digits

  const TRIED_BUCKET_COUNT: nat := 256
  const NEW_BUCKET_COUNT: nat := 1024
  const BUCKET_SIZE: nat := 64
  const TRIED_BUCKETS_PER_GROUP: nat := 8
  const NEW_BUCKETS_PER_SOURCE_GROUP: nat := 64
  const NEW_BUCKETS_PER_ADDRESS: nat := 8
  const HORIZON_DAYS: nat := 30
  const RETRIES: nat := 3
  const MAX_FAILURES: nat := 10
  const MIN_FAIL_DAYS: nat := 7
  const DAY: nat := 24 * 60 * 60

  datatype NetAddr = NetAddr(ip: nat)
  datatype Service = Service(net: NetAddr, port: nat)
  datatype Address = Address(service: Service, services: bv64, time: nat)

  /** Conversion of a 64-bit time to the unsigned 32-bit field CAddress::nTime. */
  function Time32(t: int): nat {
    t % 0x1_0000_0000
  }

  /** What is remembered about one peer; none of the fields is an index into another structure. */
  datatype Entry = Entry(addr: Address, source: NetAddr, lastTry: int, lastSuccess: int, attempts: int)
  {
    function Net(): NetAddr { addr.service.net }

    predicate IsTerrible(now: int) {
      if lastTry != 0 && lastTry >= now - 60 then false
      else if addr.time > now + 10 * 60 then true
      else if addr.time == 0 || now - addr.time > HORIZON_DAYS * DAY then true
      else if lastSuccess == 0 && attempts >= RETRIES then true
      else now - lastSuccess > MIN_FAIL_DAYS * DAY && attempts >= MAX_FAILURES
    }
  }

  datatype Slot = Slot(bucket: nat, pos: nat)

  /** The messages that the bucket functions hash. */
  datatype HashInput =
    | TriedKey(key: nat, service: Service)
    | TriedBucketOf(key: nat, group: nat, spread: nat)
    | NewKey(key: nat, group: nat, sourceGroup: nat)
    | NewBucketOf(key: nat, sourceGroup: nat, spread: nat)
    | PositionIn(key: nat, isNew: bool, bucket: nat, service: Service)

  /** The secret key with the functions left uninterpreted: the hash and two queries on addresses. */
  datatype Salt = Salt(key: nat, low64: HashInput -> nat, group: NetAddr -> nat, routable: NetAddr -> bool)
  {
    function TriedBucket(s: Service): nat {
      low64(TriedBucketOf(key, group(s.net), low64(TriedKey(key, s)) % TRIED_BUCKETS_PER_GROUP)) % TRIED_BUCKET_COUNT
    }

    function NewBucket(s: Service, source: NetAddr): nat {
      var spread := low64(NewKey(key, group(s.net), group(source))) % NEW_BUCKETS_PER_SOURCE_GROUP;
      low64(NewBucketOf(key, group(source), spread)) % NEW_BUCKET_COUNT
    }

    function Position(isNew: bool, bucket: nat, s: Service): nat {
      low64(PositionIn(key, isNew, bucket, s)) % BUCKET_SIZE
    }

    function TriedSlot(s: Service): Slot {
      Slot(TriedBucket(s), Position(false, TriedBucket(s), s))
    }

    function NewSlot(s: Service, source: NetAddr): Slot {
      Slot(NewBucket(s, source), Position(true, NewBucket(s, source), s))
    }

    /** May the slot of the "new" table hold this service at all? */
    predicate Fits(s: Slot, service: Service) {
      s.bucket < NEW_BUCKET_COUNT && s.pos == Position(true, s.bucket, service)
    }
  }

  type Table = map<Slot, int>

  function SlotsOf(t: Table, id: int): set<Slot> {
    set s | s in t && t[s] == id
  }

  function Without(t: Table, id: int): Table {
    map s | s in t && t[s] != id :: t[s]
  }

  datatype Book = Book(entries: map<int, Entry>, untried: Table, tried: Table)

  const EMPTY := Book(map[], map[], map[])

  ghost predicate InTried(b: Book, id: int) {
    SlotsOf(b.tried, id) != {}
  }

  /** Every occupied "new" slot holds a known, untried entry that hashes to it. */
  ghost predicate UntriedSound(b: Book, salt: Salt) {
    forall s :: s in b.untried ==>
      && b.untried[s] in b.entries
      && salt.Fits(s, b.entries[b.untried[s]].addr.service)
      && !InTried(b, b.untried[s])
  }

  /** Every occupied tried slot holds a known entry that hashes to it and has succeeded once. */
  ghost predicate TriedSound(b: Book, salt: Salt) {
    forall s :: s in b.tried ==>
      && b.tried[s] in b.entries
      && s == salt.TriedSlot(b.entries[b.tried[s]].addr.service)
      && b.entries[b.tried[s]].lastSuccess != 0
  }

  ghost predicate NetsDistinct(b: Book) {
    forall i, j :: i in b.entries && j in b.entries && b.entries[i].Net() == b.entries[j].Net() ==> i == j
  }

  ghost predicate EntrySound(b: Book, i: int)
    requires i in b.entries
  {
    && 0 <= i
    && |SlotsOf(b.untried, i)| <= NEW_BUCKETS_PER_ADDRESS
    && b.entries[i].lastTry >= 0
    && b.entries[i].lastSuccess >= 0
  }

  /** The part of consistency that survives in the middle of every operation. */
  ghost predicate Sound(b: Book, salt: Salt) {
    && UntriedSound(b, salt)
    && TriedSound(b, salt)
    && NetsDistinct(b)
    && forall i :: i in b.entries ==> EntrySound(b, i)
  }

  /** No entry outside `except` is unreachable from both tables. */
  ghost predicate Settled(b: Book, except: set<int>) {
    forall i :: i in b.entries && i !in except ==> InTried(b, i) || SlotsOf(b.untried, i) != {}
  }

  /** A consistent book: the facts CAddrMan::Check_ looks for that are not about its indexes. */
  ghost predicate Consistent(b: Book, salt: Salt) {
    Sound(b, salt) && Settled(b, {})
  }

  ///////////////////////////////////////////////////////////////////////////////////////////////
  // Operations
  ///////////////////////////////////////////////////////////////////////////////////////////////

  /** Empties a slot of the "new" table; an entry that loses its last slot is forgotten. */
  function ClearSlot(b: Book, s: Slot): Book {
    if s !in b.untried then b
    else
      var id, rest := b.untried[s], b.untried - {s};
      if SlotsOf(rest, id) == {} then Book(b.entries - {id}, rest, b.tried)
      else b.(untried := rest)
  }

  /** Puts `id` in a slot of the "new" table, whoever was there before. */
  function Place(b: Book, s: Slot, id: int): Book {
    var cleared := ClearSlot(b, s);
    cleared.(untried := cleared.untried[s := id])
  }

  /** Takes the occupant of a tried slot out of the tried table and back into the "new" table. */
  function Demote(b: Book, salt: Salt, k: Slot): Book
    requires k in b.tried ==> b.tried[k] in b.entries
  {
    if k !in b.tried then b
    else
      var evicted := b.entries[b.tried[k]];
      Place(b.(tried := b.tried - {k}), salt.NewSlot(evicted.addr.service, evicted.source), b.tried[k])
  }

  /** Moves an entry from the "new" table to its slot of the tried table. */
  function Promote(b: Book, salt: Salt, id: int): Book
    requires id in b.entries
    requires forall s :: s in b.tried ==> b.tried[s] in b.entries
  {
    var k := salt.TriedSlot(b.entries[id].addr.service);
    var room := Demote(b.(untried := Without(b.untried, id)), salt, k);
    room.(tried := room.tried[k := id])
  }

  ///////////////////////////////////////////////////////////////////////////////////////////////
  // Slots
  ///////////////////////////////////////////////////////////////////////////////////////////////

  lemma SlotsAfterRemoval(t: Table, s: Slot, id: int)
    ensures SlotsOf(t - {s}, id) == SlotsOf(t, id) - {s}
  {}

  lemma SlotsAfterUpdate(t: Table, s: Slot, id: int, other: int)
    ensures SlotsOf(t[s := id], other) == SlotsOf(t, other) - {s} + (if other == id then {s} else {})
  {}

  lemma SlotCountAfterRemoval(t: Table, s: Slot, id: int)
    requires s in t
    ensures |SlotsOf(t - {s}, id)| == |SlotsOf(t, id)| - (if t[s] == id then 1 else 0)
    ensures t[s] != id ==> SlotsOf(t - {s}, id) == SlotsOf(t, id)
  {
    SlotsAfterRemoval(t, s, id);
    assert s in SlotsOf(t, id) <==> t[s] == id;
  }

  lemma SlotCountAfterFill(t: Table, s: Slot, id: int, other: int)
    requires s !in t
    ensures |SlotsOf(t[s := id], other)| == |SlotsOf(t, other)| + (if other == id then 1 else 0)
    ensures other != id ==> SlotsOf(t[s := id], other) == SlotsOf(t, other)
    ensures other == id ==> s in SlotsOf(t[s := id], other)
  {
    SlotsAfterUpdate(t, s, id, other);
    assert s !in SlotsOf(t, other);
  }

  lemma SlotsWithout(t: Table, id: int, other: int)
    ensures SlotsOf(Without(t, id), other) == if other == id then {} else SlotsOf(t, other)
  {}

  ///////////////////////////////////////////////////////////////////////////////////////////////
  // Every operation keeps the book sound
  ///////////////////////////////////////////////////////////////////////////////////////////////

  /** What ClearSlot does to every other entry and slot. */
  lemma ClearSlotEffect(b: Book, s: Slot, id: int)
    ensures SlotsOf(ClearSlot(b, s).untried, id) == SlotsOf(b.untried, id) - {s}
    ensures ClearSlot(b, s).tried == b.tried
    ensures id in ClearSlot(b, s).entries <==>
      id in b.entries && !(s in b.untried && b.untried[s] == id && SlotsOf(b.untried, id) == {s})
    ensures id in ClearSlot(b, s).entries ==> ClearSlot(b, s).entries[id] == b.entries[id]
    ensures s !in ClearSlot(b, s).untried
  {
    SlotsAfterRemoval(b.untried, s, id);
    if s in b.untried {
      SlotsAfterRemoval(b.untried, s, b.untried[s]);
      assert s in SlotsOf(b.untried, b.untried[s]);
    }
  }

  lemma ClearSlotTables(b: Book, salt: Salt, s: Slot)
    requires UntriedSound(b, salt) && TriedSound(b, salt)
    ensures UntriedSound(ClearSlot(b, s), salt) && TriedSound(ClearSlot(b, s), salt)
  {
    var c := ClearSlot(b, s);
    forall t | t in c.untried
      ensures c.untried[t] in c.entries && salt.Fits(t, c.entries[c.untried[t]].addr.service) && !InTried(c, c.untried[t])
    {
      var id := c.untried[t];
      ClearSlotEffect(b, s, id);
      assert t in b.untried && b.untried[t] == id && t in SlotsOf(b.untried, id);
    }
    forall t | t in c.tried ensures c.tried[t] in c.entries {
      var id := c.tried[t];
      ClearSlotEffect(b, s, id);
      assert t in SlotsOf(b.tried, id);
    }
  }

  /** An entry that is still there is unchanged, has no more slots than before, and is in some table if it was. */
  lemma ClearSlotEntry(b: Book, s: Slot, i: int)
    requires i in ClearSlot(b, s).entries
    ensures var c := ClearSlot(b, s);
      && i in b.entries && c.entries[i] == b.entries[i]
      && |SlotsOf(c.untried, i)| <= |SlotsOf(b.untried, i)|
      && (InTried(b, i) || SlotsOf(b.untried, i) != {} ==> InTried(c, i) || SlotsOf(c.untried, i) != {})
  {
    ClearSlotEffect(b, s, i);
    SubsetSize(SlotsOf(ClearSlot(b, s).untried, i), SlotsOf(b.untried, i));
  }

  lemma ClearSlotSound(b: Book, salt: Salt, s: Slot, except: set<int>)
    requires Sound(b, salt) && Settled(b, except)
    ensures Sound(ClearSlot(b, s), salt) && Settled(ClearSlot(b, s), except)
  {
    var c := ClearSlot(b, s);
    ClearSlotTables(b, salt, s);
    hide UntriedSound, TriedSound, SlotsOf, ClearSlot, InTried;
    forall i | i in c.entries
      ensures EntrySound(c, i) && i in b.entries && c.entries[i] == b.entries[i]
      ensures i !in except ==> InTried(c, i) || SlotsOf(c.untried, i) != {}
    {
      ClearSlotEntry(b, s, i);
      assert EntrySound(b, i);
    }
  }

  /** Filling an empty "new" slot with an untried entry that hashes to it. */
  lemma InsertSound(b: Book, salt: Salt, s: Slot, id: int, except: set<int>)
    requires Sound(b, salt) && Settled(b, except)
    requires id in b.entries && !InTried(b, id) && salt.Fits(s, b.entries[id].addr.service)
    requires s !in b.untried && |SlotsOf(b.untried, id)| < NEW_BUCKETS_PER_ADDRESS
    ensures var p := b.(untried := b.untried[s := id]); Sound(p, salt) && Settled(p, except - {id})
  {
    var p := b.(untried := b.untried[s := id]);
    forall i | i in p.entries
      ensures EntrySound(p, i) && (i !in except - {id} ==> InTried(p, i) || SlotsOf(p.untried, i) != {})
    {
      SlotsAfterUpdate(b.untried, s, id, i);
      assert s !in SlotsOf(b.untried, i);
      assert EntrySound(b, i);
    }
    assert UntriedSound(p, salt);
    assert TriedSound(p, salt) && NetsDistinct(p);
  }

  /** Inserting an untried entry where it hashes, in a slot that is not already its own. */
  lemma PlaceSound(b: Book, salt: Salt, s: Slot, id: int, except: set<int>)
    requires Sound(b, salt) && Settled(b, except)
    requires id in b.entries && !InTried(b, id) && salt.Fits(s, b.entries[id].addr.service)
    requires s in b.untried ==> b.untried[s] != id
    requires |SlotsOf(b.untried, id)| < NEW_BUCKETS_PER_ADDRESS
    ensures Sound(Place(b, s, id), salt) && Settled(Place(b, s, id), except - {id})
    ensures id in Place(b, s, id).entries && Place(b, s, id).entries[id] == b.entries[id]
    ensures SlotsOf(Place(b, s, id).untried, id) == SlotsOf(b.untried, id) + {s}
    ensures Place(b, s, id).tried == b.tried
  {
    var c := ClearSlot(b, s);
    ClearSlotSound(b, salt, s, except);
    ClearSlotEffect(b, s, id);
    assert s !in SlotsOf(b.untried, id);
    assert SlotsOf(c.untried, id) == SlotsOf(b.untried, id);
    InsertSound(c, salt, s, id, except);
    SlotsAfterUpdate(c.untried, s, id, id);
  }

  /** An entry sits in at most one tried slot, the one it hashes to. */
  lemma TriedSlotUnique(b: Book, salt: Salt, s: Slot)
    requires TriedSound(b, salt) && s in b.tried
    ensures SlotsOf(b.tried, b.tried[s]) == {s}
  {}

  /** Taking an occupant out of its tried slot leaves it in neither table. */
  lemma EvictSound(b: Book, salt: Salt, k: Slot, except: set<int>)
    requires Sound(b, salt) && Settled(b, except) && k in b.tried
    ensures var c := b.(tried := b.tried - {k});
      && Sound(c, salt) && Settled(c, except + {b.tried[k]})
      && !InTried(c, b.tried[k]) && SlotsOf(c.untried, b.tried[k]) == {}
  {
    var id := b.tried[k];
    var c := b.(tried := b.tried - {k});
    TriedSlotUnique(b, salt, k);
    SlotsAfterRemoval(b.tried, k, id);
    forall t | t in b.untried ensures b.untried[t] != id {
      assert k in SlotsOf(b.tried, id);
    }
    forall i | i in c.entries
      ensures EntrySound(c, i) && (i !in except + {id} ==> InTried(c, i) || SlotsOf(c.untried, i) != {})
    {
      assert EntrySound(b, i);
      SlotsAfterRemoval(b.tried, k, i);
      assert i != id ==> k !in SlotsOf(b.tried, i);
    }
    forall t | t in c.untried ensures !InTried(c, c.untried[t]) {
      SlotsAfterRemoval(b.tried, k, c.untried[t]);
      assert !InTried(b, b.untried[t]);
    }
    assert UntriedSound(c, salt) && TriedSound(c, salt) && NetsDistinct(c);
  }

  /** What the occupant of a tried slot needs to be moved out. */
  ghost predicate CanEvict(b: Book, salt: Salt, k: Slot) {
    && k in b.tried && b.tried[k] in b.entries && b.tried[k] >= 0
    && SlotsOf(b.tried, b.tried[k]) == {k}
    && SlotsOf(b.untried, b.tried[k]) == {}
    && UntriedSound(b.(tried := b.tried - {k}), salt)
  }

  lemma CanEvictAny(b: Book, salt: Salt, k: Slot, except: set<int>)
    requires Sound(b, salt) && Settled(b, except) && k in b.tried
    ensures CanEvict(b, salt, k)
  {
    EvictSound(b, salt, k, except);
    TriedSlotUnique(b, salt, k);
    assert EntrySound(b, b.tried[k]);
  }

  lemma DemoteSound(b: Book, salt: Salt, k: Slot, except: set<int>)
    requires Sound(b, salt) && Settled(b, except)
    ensures Sound(Demote(b, salt, k), salt) && Settled(Demote(b, salt, k), except)
    ensures Demote(b, salt, k).tried == b.tried - {k}
    ensures k in b.tried ==>
      && b.tried[k] in Demote(b, salt, k).entries
      && var e := b.entries[b.tried[k]];
         SlotsOf(Demote(b, salt, k).untried, b.tried[k]) == {salt.NewSlot(e.addr.service, e.source)}
  {
    if k in b.tried {
      var id := b.tried[k];
      var c, u := b.(tried := b.tried - {k}), salt.NewSlot(b.entries[id].addr.service, b.entries[id].source);
      EvictSound(b, salt, k, except);
      assert u in c.untried ==> c.untried[u] != id by {
        assert u !in SlotsOf(c.untried, id);
      }
      PlaceSound(c, salt, u, id, except + {id});
    } else {
      assert b.tried - {k} == b.tried;
    }
  }

  lemma WithoutSound(b: Book, salt: Salt, id: int, except: set<int>)
    requires Sound(b, salt) && Settled(b, except)
    ensures var c := b.(untried := Without(b.untried, id)); Sound(c, salt) && Settled(c, except + {id})
  {
    var c := b.(untried := Without(b.untried, id));
    forall i | i in c.entries
      ensures EntrySound(c, i) && (i !in except + {id} ==> InTried(c, i) || SlotsOf(c.untried, i) != {})
    {
      SlotsWithout(b.untried, id, i);
      assert EntrySound(b, i);
    }
    assert UntriedSound(c, salt) && TriedSound(c, salt) && NetsDistinct(c);
  }

  lemma EnteredOther(b: Book, k: Slot, id: int, i: int)
    requires k !in b.tried
    ensures InTried(b.(tried := b.tried[k := id]), i) <==> InTried(b, i) || i == id
  {
    SlotsAfterUpdate(b.tried, k, id, i);
    assert k !in SlotsOf(b.tried, i);
  }

  lemma EnteredUntried(b: Book, salt: Salt, k: Slot, id: int)
    requires UntriedSound(b, salt) && SlotsOf(b.untried, id) == {} && k !in b.tried
    ensures UntriedSound(b.(tried := b.tried[k := id]), salt)
  {
    forall t | t in b.untried ensures !InTried(b.(tried := b.tried[k := id]), b.untried[t]) {
      EnteredOther(b, k, id, b.untried[t]);
      assert t in SlotsOf(b.untried, b.untried[t]);
    }
  }

  lemma EnterTriedKeeps(b: Book, salt: Salt, id: int)
    requires Sound(b, salt)
    requires id in b.entries && SlotsOf(b.untried, id) == {} && b.entries[id].lastSuccess != 0
    requires salt.TriedSlot(b.entries[id].addr.service) !in b.tried
    ensures Sound(b.(tried := b.tried[salt.TriedSlot(b.entries[id].addr.service) := id]), salt)
  {
    var k := salt.TriedSlot(b.entries[id].addr.service);
    var p := b.(tried := b.tried[k := id]);
    EnteredUntried(b, salt, k, id);
    hide UntriedSound, SlotsOf, InTried;
    forall i | i in p.entries ensures EntrySound(p, i) {
      assert EntrySound(b, i);
    }
  }

  /** Filling an empty tried slot with an entry that hashes to it and is in neither table. */
  lemma EnterTriedSound(b: Book, salt: Salt, id: int)
    requires Sound(b, salt) && Settled(b, {id})
    requires id in b.entries && SlotsOf(b.untried, id) == {} && b.entries[id].lastSuccess != 0
    requires salt.TriedSlot(b.entries[id].addr.service) !in b.tried
    ensures Consistent(b.(tried := b.tried[salt.TriedSlot(b.entries[id].addr.service) := id]), salt)
  {
    var k := salt.TriedSlot(b.entries[id].addr.service);
    EnterTriedKeeps(b, salt, id);
    hide Sound, SlotsOf;
    forall i | i in b.entries ensures InTried(b.(tried := b.tried[k := id]), i) <==> InTried(b, i) || i == id {
      EnteredOther(b, k, id, i);
    }
  }

  /** What an entry needs to be moved to the tried table. */
  ghost predicate CanPromote(b: Book, salt: Salt, id: int) {
    && id in b.entries && id >= 0
    && UntriedSound(b, salt)
    && (forall s :: s in b.tried ==> b.tried[s] in b.entries)
    && var c, k := b.(untried := Without(b.untried, id)), salt.TriedSlot(b.entries[id].addr.service);
       && (k in c.tried ==> CanEvict(c, salt, k))
       && id in Demote(c, salt, k).entries
       && Demote(c, salt, k).tried.Keys == b.tried.Keys - {k}
  }

  lemma CanPromoteUntried(b: Book, salt: Salt, id: int)
    requires Consistent(b, salt) && id in b.entries && !InTried(b, id)
    ensures CanPromote(b, salt, id)
    ensures SlotsOf(b.untried, id) != {} && UntriedSound(b, salt)
  {
    var c, k := b.(untried := Without(b.untried, id)), salt.TriedSlot(b.entries[id].addr.service);
    assert EntrySound(b, id);
    WithoutSound(b, salt, id, {});
    SlotsWithout(b.untried, id, id);
    DemoteSound(c, salt, k, {} + {id});
    DemoteSpares(c, salt, k, id);
    if k in c.tried {
      CanEvictAny(c, salt, k, {} + {id});
    }
  }

  lemma TriedSoundRewritten(b: Book, salt: Salt, id: int, e: Entry, untried: Table)
    requires TriedSound(b, salt) && !InTried(b, id)
    ensures TriedSound(Book(b.entries[id := e], untried, b.tried), salt)
  {
    forall t | t in b.tried ensures b.tried[t] != id {
      assert b.tried[t] == id ==> t in SlotsOf(b.tried, id);
    }
  }

  lemma UntriedSoundRewritten(b: Book, salt: Salt, id: int, e: Entry)
    requires UntriedSound(b, salt) && id in b.entries && e.addr.service == b.entries[id].addr.service
    ensures UntriedSound(b.(entries := b.entries[id := e]), salt)
  {
    forall s | s in b.untried ensures !InTried(b.(entries := b.entries[id := e]), b.untried[s]) {
      assert !InTried(b, b.untried[s]);
    }
  }

  lemma CanEvictRewritten(b: Book, salt: Salt, k: Slot, id: int, e: Entry)
    requires CanEvict(b, salt, k) && id in b.entries && e.addr.service == b.entries[id].addr.service
    ensures CanEvict(b.(entries := b.entries[id := e]), salt, k)
  {
    hide UntriedSound;
    UntriedSoundRewritten(b.(tried := b.tried - {k}), salt, id, e);
  }

  /** Whatever times are written into the entry, it can still be moved. */
  lemma CanPromoteRewritten(b: Book, salt: Salt, id: int, e: Entry)
    requires Consistent(b, salt) && id in b.entries && !InTried(b, id)
    requires e.addr.service == b.entries[id].addr.service
    ensures CanPromote(b.(entries := b.entries[id := e]), salt, id)
    ensures SlotsOf(b.untried, id) != {} && UntriedSound(b.(entries := b.entries[id := e]), salt)
  {
    hide SlotsOf, Without, UntriedSound, CanEvict, TriedSound, Settled, NetsDistinct;
    CanPromoteUntried(b, salt, id);
    UntriedSoundRewritten(b, salt, id, e);
    var (b', c') := (b.(untried := Without(b.untried, id)), Book(b.entries[id := e], Without(b.untried, id), b.tried));
    var k := salt.TriedSlot(e.addr.service);
    SlotsWithout(b.untried, id, id);
    TriedSoundRewritten(b, salt, id, e, Without(b.untried, id));
    DemoteSpares(c', salt, k, id);
    if k in b.tried {
      CanEvictRewritten(b', salt, k, id, e);
    }
  }

  /** Demotion taken apart into the steps in which MakeTried performs it. */
  lemma DemoteSteps(b: Book, salt: Salt, k: Slot)
    requires CanEvict(b, salt, k)
    ensures k in b.tried && b.tried[k] in b.entries && b.tried[k] >= 0 && SlotsOf(b.tried, b.tried[k]) == {k}
    ensures UntriedSound(b.(tried := b.tried - {k}), salt)
    ensures var id, c := b.tried[k], b.(tried := b.tried - {k});
      var u := salt.NewSlot(b.entries[id].addr.service, b.entries[id].source);
      var room := ClearSlot(c, u);
      && id in room.entries && u !in room.untried
      && Demote(b, salt, k) == room.(untried := room.untried[u := id])
  {
    var id, c := b.tried[k], b.(tried := b.tried - {k});
    var u := salt.NewSlot(b.entries[id].addr.service, b.entries[id].source);
    ClearSlotEffect(c, u, id);
    assert u !in SlotsOf(c.untried, id);
  }

  lemma PromoteSizes(b: Book, salt: Salt, id: int)
    requires id in b.entries && forall s :: s in b.tried ==> b.tried[s] in b.entries
    requires var c, k := b.(untried := Without(b.untried, id)), salt.TriedSlot(b.entries[id].addr.service);
      Demote(c, salt, k).tried.Keys == b.tried.Keys - {k}
    ensures var c, k := b.(untried := Without(b.untried, id)), salt.TriedSlot(b.entries[id].addr.service);
      var room := Demote(c, salt, k);
      && k !in room.tried
      && |room.tried.Keys| == |b.tried.Keys| - (if k in b.tried then 1 else 0)
      && Promote(b, salt, id) == room.(tried := room.tried[k := id])
      && |Promote(b, salt, id).tried.Keys| == |room.tried.Keys| + 1
  {
    hide SlotsOf, Without, Demote;
    var k := salt.TriedSlot(b.entries[id].addr.service);
    var room := Demote(b.(untried := Without(b.untried, id)), salt, k);
    assert Promote(b, salt, id) == room.(tried := room.tried[k := id]);
    hide Promote;
    KeySizes(b.tried.Keys, k);
    PutSize(room.tried, k, id);
  }

  /** Promotion taken apart into the steps in which MakeTried performs it, with what each step counts. */
  lemma PromoteSteps(b: Book, salt: Salt, id: int)
    requires CanPromote(b, salt, id)
    ensures id in b.entries && forall s :: s in b.tried ==> b.tried[s] in b.entries
    ensures var c, k := b.(untried := Without(b.untried, id)), salt.TriedSlot(b.entries[id].addr.service);
      var room := Demote(c, salt, k);
      && UntriedSound(b, salt) && id >= 0
      && k.bucket < TRIED_BUCKET_COUNT && k.pos < BUCKET_SIZE
      && (if k in b.tried then CanEvict(c, salt, k) else room == c)
      && |room.tried.Keys| == |b.tried.Keys| - (if k in b.tried then 1 else 0)
      && id in room.entries && k !in room.tried
      && Promote(b, salt, id) == room.(tried := room.tried[k := id])
      && |Promote(b, salt, id).tried.Keys| == |room.tried.Keys| + 1
  {
    hide SlotsOf, UntriedSound, CanEvict, Without, Demote;
    var k := salt.TriedSlot(b.entries[id].addr.service);
    var room := Demote(b.(untried := Without(b.untried, id)), salt, k);
    NothingToDemote(b.(untried := Without(b.untried, id)), salt, k);
    PromoteSizes(b, salt, id);
  }

  lemma NothingToDemote(b: Book, salt: Salt, k: Slot)
    requires k in b.tried ==> b.tried[k] in b.entries
    ensures k !in b.tried ==> Demote(b, salt, k) == b
  {}

  lemma KeySizes(keys: set<Slot>, k: Slot)
    ensures |keys - {k}| == |keys| - if k in keys then 1 else 0
  {}

  lemma PutSize(t: Table, k: Slot, id: int)
    requires k !in t.Keys
    ensures |t[k := id].Keys| == |t.Keys| + 1
  {
    assert t[k := id].Keys == t.Keys + {k};
  }

  /** Promotion keeps every law, whatever the promoted entry evicts and whatever that deletes. */
  lemma PromoteSound(b: Book, salt: Salt, id: int)
    requires Consistent(b, salt) && id in b.entries
    requires !InTried(b, id) && b.entries[id].lastSuccess != 0
    ensures Consistent(Promote(b, salt, id), salt)
    ensures SlotsOf(Promote(b, salt, id).tried, id) == {salt.TriedSlot(b.entries[id].addr.service)}
  {
    var k := salt.TriedSlot(b.entries[id].addr.service);
    var c := b.(untried := Without(b.untried, id));
    var room := Demote(c, salt, k);
    WithoutSound(b, salt, id, {});
    SlotsWithout(b.untried, id, id);
    DemoteSound(c, salt, k, {id});
    DemoteSpares(c, salt, k, id);
    assert {} + {id} == {id};
    EnterTriedSound(room, salt, id);
    SlotsAfterUpdate(room.tried, k, id, id);
    SlotsAfterRemoval(b.tried, k, id);
  }

  /** Demotion does not touch an entry that is in neither table. */
  lemma DemoteSpares(b: Book, salt: Salt, k: Slot, id: int)
    requires TriedSound(b, salt)
    requires id in b.entries && SlotsOf(b.untried, id) == {} && SlotsOf(b.tried, id) == {}
    ensures id in Demote(b, salt, k).entries && Demote(b, salt, k).entries[id] == b.entries[id]
    ensures SlotsOf(Demote(b, salt, k).untried, id) == {}
  {
    if k in b.tried {
      var e := b.entries[b.tried[k]];
      var u := salt.NewSlot(e.addr.service, e.source);
      var c := b.(tried := b.tried - {k});
      assert k in SlotsOf(b.tried, b.tried[k]);
      ClearSlotEffect(c, u, id);
      SlotsAfterUpdate(ClearSlot(c, u).untried, u, b.tried[k], id);
    }
  }

  ///////////////////////////////////////////////////////////////////////////////////////////////
  // The requests a node makes
  ///////////////////////////////////////////////////////////////////////////////////////////////

  /** The id of the entry for a network address, or -1. */
  ghost function IdOf(b: Book, net: NetAddr): (id: int)
    ensures id != -1 ==> id in b.entries && b.entries[id].Net() == net
    ensures id == -1 && -1 !in b.entries ==> forall i :: i in b.entries ==> b.entries[i].Net() != net
  {
    if i :| i in b.entries && b.entries[i].Net() == net then i else -1
  }

  function Max(x: int, y: int): int {
    if x < y then y else x
  }

  /** The services of two announcements together. */
  function Merged(a: bv64, b: bv64): bv64 {
    a | b
  }

  /** A known peer is announced again: its time and services may be updated. */
  function Refresh(e: Entry, addr: Address, penalty: int, now: int): Entry {
    var interval := if now - addr.time < DAY then 60 * 60 else DAY;
    var late := addr.time != 0 && (e.addr.time == 0 || e.addr.time < addr.time - interval - penalty);
    var time := if late then Time32(Max(0, addr.time - penalty)) else e.addr.time;
    e.(addr := Address(e.addr.service, Merged(e.addr.services, addr.services), time))
  }

  /** Whether a known peer, already refreshed, is considered for one more slot. */
  ghost predicate WantsSlot(b: Book, id: int, addr: Address, draw: nat)
    requires id in b.entries
  {
    var references := |SlotsOf(b.untried, id)|;
    && addr.time != 0
    && (b.entries[id].addr.time == 0 || addr.time > b.entries[id].addr.time)
    && !InTried(b, id)
    && references != NEW_BUCKETS_PER_ADDRESS
    && (Digits.PowPositive(2, references); draw % Digits.Pow(2, references) == 0)
  }

  /** May an entry with `references` slots take the slot `s`? */
  ghost predicate Yields(b: Book, s: Slot, references: nat, now: int)
    requires s in b.untried ==> b.untried[s] in b.entries
  {
    s in b.untried ==>
      || b.entries[b.untried[s]].IsTerrible(now)
      || (|SlotsOf(b.untried, b.untried[s])| > 1 && references == 0)
  }

  /** Offers the slot that `source` selects to an entry; an entry left without a slot is forgotten. */
  ghost function Offer(b: Book, salt: Salt, id: int, source: NetAddr, now: int): Book
    requires id in b.entries
    requires forall s :: s in b.untried ==> b.untried[s] in b.entries
  {
    var s := salt.NewSlot(b.entries[id].addr.service, source);
    if s in b.untried && b.untried[s] == id then b
    else if Yields(b, s, |SlotsOf(b.untried, id)|, now) then Place(b, s, id)
    else if SlotsOf(b.untried, id) == {} then b.(entries := b.entries - {id})
    else b
  }

  /** A book together with the next unused id. */
  datatype State = State(book: Book, nextId: int)

  datatype Op =
    | Add(addr: Address, source: NetAddr, penalty: int, now: int, draw: nat)
    | Good(service: Service, time: int)
    | Attempt(service: Service, time: int)
    | Connected(service: Service, time: int)

  ghost predicate ValidOp(op: Op) {
    match op
    case Add(addr, _, _, _, _) => true
    case Good(_, time) => time > 0
    case Attempt(_, time) => time >= 0
    case Connected(_, _) => true
  }

  ghost predicate ValidState(s: State, salt: Salt) {
    && Consistent(s.book, salt)
    && 0 <= s.nextId
    && forall i :: i in s.book.entries ==> i < s.nextId
  }

  function NewEntry(addr: Address, source: NetAddr, penalty: int): Entry {
    Entry(addr.(time := Time32(Max(0, addr.time - penalty))), source, 0, 0, 0)
  }

  ghost function Apply(s: State, salt: Salt, op: Op): State
    requires Sound(s.book, salt)
  {
    var b := s.book;
    match op
    case Add(addr, source, penalty, now, draw) =>
      var id := IdOf(b, addr.service.net);
      if !salt.routable(addr.service.net) then s
      else if id == -1 then
        var entry := NewEntry(addr, source, penalty);
        State(Offer(b.(entries := b.entries[s.nextId := entry]), salt, s.nextId, source, now), s.nextId + 1)
      else
        var c := b.(entries := b.entries[id := Refresh(b.entries[id], addr, penalty, now)]);
        if WantsSlot(c, id, addr, draw) then s.(book := Offer(c, salt, id, source, now)) else s.(book := c)
    case Good(service, time) =>
      var id := IdOf(b, service.net);
      if id == -1 || b.entries[id].addr.service != service then s
      else
        var e := b.entries[id].(lastSuccess := time, lastTry := time, attempts := 0);
        var c := b.(entries := b.entries[id := e]);
        s.(book := if InTried(b, id) then c else Promote(c, salt, id))
    case Attempt(service, time) =>
      var id := IdOf(b, service.net);
      if id == -1 || b.entries[id].addr.service != service then s
      else
        var e := b.entries[id].(lastTry := time, attempts := b.entries[id].attempts + 1);
        s.(book := b.(entries := b.entries[id := e]))
    case Connected(service, time) =>
      var id := IdOf(b, service.net);
      if id == -1 || b.entries[id].addr.service != service || time - b.entries[id].addr.time <= 20 * 60 then s
      else
        var e := b.entries[id].(addr := b.entries[id].addr.(time := Time32(time)));
        s.(book := b.(entries := b.entries[id := e]))
  }

  ghost function Run(s: State, salt: Salt, ops: seq<Op>): State
    requires ValidState(s, salt) && forall op :: op in ops ==> ValidOp(op)
    ensures ValidState(Run(s, salt, ops), salt)
    decreases ops
  {
    if ops == [] then s
    else
      ApplyValid(s, salt, ops[0]);
      Run(Apply(s, salt, ops[0]), salt, ops[1..])
  }

  lemma UpdateNetsDistinct(b: Book, id: int, e: Entry)
    requires NetsDistinct(b) && id in b.entries && e.Net() == b.entries[id].Net()
    ensures NetsDistinct(b.(entries := b.entries[id := e]))
  {}

  lemma UpdateTablesSound(b: Book, salt: Salt, id: int, e: Entry)
    requires UntriedSound(b, salt) && TriedSound(b, salt) && id in b.entries
    requires e.addr.service == b.entries[id].addr.service && (b.entries[id].lastSuccess != 0 ==> e.lastSuccess != 0)
    ensures var c := b.(entries := b.entries[id := e]); UntriedSound(c, salt) && TriedSound(c, salt)
  {}

  /** Changing what is remembered about an entry, but not where it hashes. */
  lemma UpdateSound(b: Book, salt: Salt, id: int, e: Entry)
    requires Consistent(b, salt) && id in b.entries
    requires e.addr.service == b.entries[id].addr.service
    requires e.lastTry >= 0 && e.lastSuccess >= 0 && (b.entries[id].lastSuccess != 0 ==> e.lastSuccess != 0)
    ensures Consistent(b.(entries := b.entries[id := e]), salt)
  {
    hide UntriedSound, TriedSound, NetsDistinct;
    var c := b.(entries := b.entries[id := e]);
    forall i | i in c.entries
      ensures EntrySound(c, i) && (InTried(c, i) || SlotsOf(c.untried, i) != {})
    {
      assert EntrySound(b, i);
    }
    UpdateTablesSound(b, salt, id, e);
    UpdateNetsDistinct(b, id, e);
  }

  /** The same for a whole state. */
  lemma UpdateValid(s: State, salt: Salt, id: int, e: Entry)
    requires ValidState(s, salt) && id in s.book.entries
    requires e.addr.service == s.book.entries[id].addr.service
    requires e.lastTry >= 0 && (e.lastSuccess == s.book.entries[id].lastSuccess || e.lastSuccess > 0)
    ensures ValidState(s.(book := s.book.(entries := s.book.entries[id := e])), salt)
  {
    hide UntriedSound, TriedSound, NetsDistinct;
    assert EntrySound(s.book, id);
    UpdateSound(s.book, salt, id, e);
  }

  lemma RefreshValid(s: State, salt: Salt, id: int, addr: Address, penalty: int, now: int)
    requires ValidState(s, salt) && id in s.book.entries
    ensures var e := Refresh(s.book.entries[id], addr, penalty, now);
      ValidState(s.(book := s.book.(entries := s.book.entries[id := e])), salt)
  {
    assert EntrySound(s.book, id);
    UpdateValid(s, salt, id, Refresh(s.book.entries[id], addr, penalty, now));
  }

  /** Deleting an entry that is in neither table. */
  lemma ForgetSound(b: Book, salt: Salt, id: int)
    requires Sound(b, salt) && Settled(b, {id})
    requires SlotsOf(b.untried, id) == {} && !InTried(b, id)
    ensures Consistent(b.(entries := b.entries - {id}), salt)
  {
    var c := b.(entries := b.entries - {id});
    forall i | i in c.entries ensures EntrySound(c, i) && (InTried(c, i) || SlotsOf(c.untried, i) != {}) {
      assert EntrySound(b, i);
    }
    forall t | t in c.untried ensures c.untried[t] != id {
      assert t in SlotsOf(b.untried, c.untried[t]);
    }
    forall t | t in c.tried ensures c.tried[t] != id {
      assert t in SlotsOf(b.tried, c.tried[t]);
    }
    assert UntriedSound(c, salt) && TriedSound(c, salt) && NetsDistinct(c);
  }

  lemma OfferValid(b: Book, salt: Salt, id: int, source: NetAddr, now: int)
    requires Sound(b, salt) && Settled(b, {id}) && id in b.entries && !InTried(b, id)
    requires |SlotsOf(b.untried, id)| < NEW_BUCKETS_PER_ADDRESS
    ensures Consistent(Offer(b, salt, id, source, now), salt)
  {
    hide EntrySound, NetsDistinct, TriedSound;
    var s := salt.NewSlot(b.entries[id].addr.service, source);
    if s in b.untried && b.untried[s] == id {
      assert s in SlotsOf(b.untried, id);
    } else if Yields(b, s, |SlotsOf(b.untried, id)|, now) {
      PlaceSound(b, salt, s, id, {id});
      assert {id} - {id} == {};
    } else if SlotsOf(b.untried, id) == {} {
      ForgetSound(b, salt, id);
    }
  }

  lemma OfferKeeps(b: Book, salt: Salt, id: int, source: NetAddr, now: int)
    requires Sound(b, salt) && id in b.entries
    ensures forall i :: i in Offer(b, salt, id, source, now).entries ==>
      i in b.entries && Offer(b, salt, id, source, now).entries[i] == b.entries[i]
  {}

  ghost predicate Unknown(b: Book, net: NetAddr) {
    forall i :: i in b.entries ==> b.entries[i].Net() != net
  }

  /** Adding an entry that is in neither table. */
  lemma LoadEntrySound(b: Book, salt: Salt, id: int, e: Entry)
    requires Sound(b, salt) && 0 <= id && id !in b.entries && Unknown(b, e.Net())
    requires e.lastTry >= 0 && e.lastSuccess >= 0
    ensures var c := b.(entries := b.entries[id := e]);
      Sound(c, salt) && SlotsOf(c.untried, id) == {} && SlotsOf(c.tried, id) == {}
  {
    var c := b.(entries := b.entries[id := e]);
    assert SlotsOf(c.untried, id) == {} && SlotsOf(c.tried, id) == {};
    forall i | i in c.entries ensures EntrySound(c, i) {
      assert i != id ==> EntrySound(b, i);
    }
    assert UntriedSound(c, salt) && TriedSound(c, salt) && NetsDistinct(c);
  }

  lemma CreateSound(b: Book, salt: Salt, id: int, e: Entry)
    requires Consistent(b, salt) && 0 <= id && id !in b.entries
    requires e.lastTry >= 0 && e.lastSuccess >= 0 && IdOf(b, e.Net()) == -1
    ensures var c := b.(entries := b.entries[id := e]);
      Sound(c, salt) && Settled(c, {id}) && SlotsOf(c.untried, id) == {} && SlotsOf(c.tried, id) == {}
  {
    assert forall i :: i in b.entries ==> EntrySound(b, i);
    LoadEntrySound(b, salt, id, e);
  }

  lemma AddValid(s: State, salt: Salt, op: Op)
    requires ValidState(s, salt) && op.Add?
    ensures ValidState(Apply(s, salt, op), salt)
  {
    var b, id := s.book, IdOf(s.book, op.addr.service.net);
    if id == -1 {
      var e := NewEntry(op.addr, op.source, op.penalty);
      CreateSound(b, salt, s.nextId, e);
      var c := b.(entries := b.entries[s.nextId := e]);
      OfferValid(c, salt, s.nextId, op.source, op.now);
      OfferKeeps(c, salt, s.nextId, op.source, op.now);
    } else {
      var e := Refresh(b.entries[id], op.addr, op.penalty, op.now);
      assert EntrySound(b, id);
      UpdateSound(b, salt, id, e);
      var c := b.(entries := b.entries[id := e]);
      if WantsSlot(c, id, op.addr, op.draw) {
        assert EntrySound(c, id);
        OfferValid(c, salt, id, op.source, op.now);
        OfferKeeps(c, salt, id, op.source, op.now);
      }
    }
  }

  lemma GoodValid(s: State, salt: Salt, op: Op)
    requires ValidState(s, salt) && ValidOp(op) && op.Good?
    ensures ValidState(Apply(s, salt, op), salt)
  {
    var b, id := s.book, IdOf(s.book, op.service.net);
    if id != -1 && b.entries[id].addr.service == op.service {
      var e := b.entries[id].(lastSuccess := op.time, lastTry := op.time, attempts := 0);
      UpdateSound(b, salt, id, e);
      if !InTried(b, id) {
        var c := b.(entries := b.entries[id := e]);
        PromoteSound(c, salt, id);
        PromoteLoss(c, salt, id);
      }
    }
  }

  /** One request keeps every law of the address book. */
  lemma ApplyValid(s: State, salt: Salt, op: Op)
    requires ValidState(s, salt) && ValidOp(op)
    ensures ValidState(Apply(s, salt, op), salt)
  {
    hide UntriedSound, TriedSound, NetsDistinct;
    var b := s.book;
    match op
    case Add(_, _, _, _, _) => AddValid(s, salt, op);
    case Good(_, _) => GoodValid(s, salt, op);
    case Attempt(service, time) =>
      var id := IdOf(b, service.net);
      if id != -1 && b.entries[id].addr.service == service {
        UpdateValid(s, salt, id, b.entries[id].(lastTry := time, attempts := b.entries[id].attempts + 1));
      }
    case Connected(service, time) =>
      var id := IdOf(b, service.net);
      if id != -1 && b.entries[id].addr.service == service {
        assert EntrySound(b, id);
        UpdateValid(s, salt, id, b.entries[id].(addr := b.entries[id].addr.(time := Time32(time))));
      }
  }

  /** Promotion invents no entry and forgets only the sole-slot occupant that the evicted entry displaces. */
  lemma PromoteLoss(b: Book, salt: Salt, id: int)
    requires Consistent(b, salt) && id in b.entries && !InTried(b, id)
    ensures forall i :: i in Promote(b, salt, id).entries ==> i in b.entries && Promote(b, salt, id).entries[i] == b.entries[i]
    ensures forall i :: i in b.entries && i !in Promote(b, salt, id).entries ==>
      var k := salt.TriedSlot(b.entries[id].addr.service);
      && k in b.tried
      && var e := b.entries[b.tried[k]];
         SlotsOf(b.untried, i) == {salt.NewSlot(e.addr.service, e.source)}
  {
    var k := salt.TriedSlot(b.entries[id].addr.service);
    var c := b.(untried := Without(b.untried, id));
    if k in b.tried {
      var e := b.entries[b.tried[k]];
      var u := salt.NewSlot(e.addr.service, e.source);
      forall i
        ensures i in Promote(b, salt, id).entries ==> i in b.entries && Promote(b, salt, id).entries[i] == b.entries[i]
        ensures i in b.entries && i !in Promote(b, salt, id).entries ==> SlotsOf(b.untried, i) == {u}
      {
        ClearSlotEffect(c.(tried := c.tried - {k}), u, i);
        SlotsWithout(b.untried, id, i);
      }
    }
  }

  /** An offer forgets at most the entry that held just the offered slot. */
  lemma OfferLoss(b: Book, salt: Salt, id: int, source: NetAddr, now: int, i: int)
    requires Sound(b, salt) && id in b.entries
    requires i in b.entries && i !in Offer(b, salt, id, source, now).entries
    ensures (i == id && SlotsOf(b.untried, i) == {})
      || SlotsOf(b.untried, i) == {salt.NewSlot(b.entries[id].addr.service, source)}
  {
    ClearSlotEffect(b, salt.NewSlot(b.entries[id].addr.service, source), i);
  }

  /** The slot whose sole occupant a request may push out of the book. */
  ghost function Contested(s: State, salt: Salt, op: Op): Slot
    requires Sound(s.book, salt)
  {
    var b := s.book;
    match op
    case Add(addr, source, _, _, _) =>
      var id := IdOf(b, addr.service.net);
      salt.NewSlot(if id == -1 then addr.service else b.entries[id].addr.service, source)
    case Good(service, _) =>
      var k := salt.TriedSlot(service);
      if k in b.tried then salt.NewSlot(b.entries[b.tried[k]].addr.service, b.entries[b.tried[k]].source) else k
    case _ => Slot(0, 0)
  }

  lemma AddLoss(s: State, salt: Salt, op: Op, i: int)
    requires ValidState(s, salt) && op.Add?
    requires i in s.book.entries && i !in Apply(s, salt, op).book.entries
    ensures SlotsOf(s.book.untried, i) == {Contested(s, salt, op)}
  {
    var b, id := s.book, IdOf(s.book, op.addr.service.net);
    if id == -1 {
      var e := NewEntry(op.addr, op.source, op.penalty);
      CreateSound(b, salt, s.nextId, e);
      OfferLoss(b.(entries := b.entries[s.nextId := e]), salt, s.nextId, op.source, op.now, i);
    } else {
      var e := Refresh(b.entries[id], op.addr, op.penalty, op.now);
      assert EntrySound(b, id);
      UpdateSound(b, salt, id, e);
      OfferLoss(b.(entries := b.entries[id := e]), salt, id, op.source, op.now, i);
    }
  }

  lemma GoodLoss(s: State, salt: Salt, op: Op, i: int)
    requires ValidState(s, salt) && ValidOp(op) && op.Good?
    requires i in s.book.entries && i !in Apply(s, salt, op).book.entries
    ensures SlotsOf(s.book.untried, i) == {Contested(s, salt, op)}
  {
    var b, id := s.book, IdOf(s.book, op.service.net);
    var e := b.entries[id].(lastSuccess := op.time, lastTry := op.time, attempts := 0);
    var c := b.(entries := b.entries[id := e]);
    UpdateSound(b, salt, id, e);
    PromoteLoss(c, salt, id);
  }

  /**
   No request forgets a tried peer, and the only peer it can forget is one whose single slot was
   the contested one; in particular it forgets at most one.
   */
  lemma OnlySoleOccupantIsForgotten(s: State, salt: Salt, op: Op, i: int)
    requires ValidState(s, salt) && ValidOp(op)
    requires i in s.book.entries && i !in Apply(s, salt, op).book.entries
    ensures !InTried(s.book, i) && SlotsOf(s.book.untried, i) == {Contested(s, salt, op)}
  {
    if op.Add? {
      AddLoss(s, salt, op, i);
    } else {
      GoodLoss(s, salt, op, i);
    }
    assert Contested(s, salt, op) in SlotsOf(s.book.untried, i);
  }

  lemma AtMostOneIsForgotten(s: State, salt: Salt, op: Op, i: int, j: int)
    requires ValidState(s, salt) && ValidOp(op)
    requires i in s.book.entries && i !in Apply(s, salt, op).book.entries
    requires j in s.book.entries && j !in Apply(s, salt, op).book.entries
    ensures i == j
  {
    OnlySoleOccupantIsForgotten(s, salt, op, i);
    OnlySoleOccupantIsForgotten(s, salt, op, j);
    assert Contested(s, salt, op) in SlotsOf(s.book.untried, i);
    assert Contested(s, salt, op) in SlotsOf(s.book.untried, j);
  }

  /**
   When a routable, unknown address is known after being announced: exactly when the slot it
   hashes to was free, or held a bad entry, or an entry that also sits elsewhere.  (Add_ reports
   success in every one of these cases and also when the address was dropped again.)
   */
  lemma AnnouncedIsKnown(s: State, salt: Salt, addr: Address, source: NetAddr, penalty: int, now: int, draw: nat)
    requires ValidState(s, salt)
    requires salt.routable(addr.service.net) && IdOf(s.book, addr.service.net) == -1
    ensures var (b, after) := (s.book, Apply(s, salt, Add(addr, source, penalty, now, draw)).book);
      var u := salt.NewSlot(addr.service, source);
      IdOf(after, addr.service.net) != -1 <==>
        || u !in b.untried
        || b.entries[b.untried[u]].IsTerrible(now)
        || |SlotsOf(b.untried, b.untried[u])| > 1
  {
    var b, id, e := s.book, s.nextId, NewEntry(addr, source, penalty);
    var c := b.(entries := b.entries[id := e]);
    var u := salt.NewSlot(addr.service, source);
    CreateSound(b, salt, id, e);
    OfferKeeps(c, salt, id, source, now);
    ClearSlotEffect(c, u, id);
    var after := Offer(c, salt, id, source, now);
    assert u in c.untried && c.untried[u] == id ==> u in SlotsOf(c.untried, id);
    if Yields(b, u, 0, now) {
      assert id in after.entries && after.entries[id].Net() == addr.service.net;
    } else {
      assert forall i :: i in after.entries ==> i in b.entries;
      assert forall i :: i in after.entries ==> after.entries[i] == b.entries[i];
      forall i | i in after.entries ensures after.entries[i].Net() != addr.service.net {
        assert EntrySound(b, i);
      }
    }
  }

  /** Under this salt every peer has the same slot. */
  function ConstantSalt(): Salt {
    Salt(0, _ => 0, _ => 0, _ => true)
  }

  function Peer(ip: nat): Address {
    Address(Service(NetAddr(ip), 8333), 0, 1000)
  }

  /** A book with one good entry in one slot. */
  function OnePeer(): State {
    State(Book(map[0 := NewEntry(Peer(1), NetAddr(9), 0)], map[Slot(0, 0) := 0], map[]), 1)
  }

  lemma OnePeerIsValid()
    ensures ValidState(OnePeer(), ConstantSalt())
  {
    var b := OnePeer().book;
    assert SlotsOf(b.untried, 0) == {Slot(0, 0)};
    assert SlotsOf(b.tried, 0) == {};
    assert b.untried[Slot(0, 0)] == 0;
  }

  /** Add_ says true of a second peer for the slot, and drops it. */
  lemma AnnouncedAndDropped()
    ensures ValidState(OnePeer(), ConstantSalt())
    ensures ConstantSalt().routable(NetAddr(2)) && IdOf(OnePeer().book, NetAddr(2)) == -1
    ensures IdOf(Apply(OnePeer(), ConstantSalt(), Add(Peer(2), NetAddr(9), 0, 1000, 0)).book, NetAddr(2)) == -1
  {
    OnePeerIsValid();
    var b := OnePeer().book;
    assert SlotsOf(b.untried, 0) == {Slot(0, 0)};
    assert !b.entries[0].IsTerrible(1000);
    assert !Yields(b, Slot(0, 0), 0, 1000);
    AnnouncedIsKnown(OnePeer(), ConstantSalt(), Peer(2), NetAddr(9), 0, 1000, 0);
  }

  /** Is the service that of the entry for its network address? */
  ghost predicate Knows(b: Book, service: Service) {
    var id := IdOf(b, service.net);
    id != -1 && b.entries[id].addr.service == service
  }

  /** After Good_ the entry is in the tried table and has the time of its success. */
  lemma GoodTimeIsKept(s: State, salt: Salt, service: Service, time: int)
    requires ValidState(s, salt) && Knows(s.book, service)
    ensures var (id, after) := (IdOf(s.book, service.net), Apply(s, salt, Good(service, time)).book);
      InTried(after, id) && id in after.entries && after.entries[id].lastSuccess == time
  {
    hide Without;
    var b, id := s.book, IdOf(s.book, service.net);
    var e := b.entries[id].(lastSuccess := time, lastTry := time, attempts := 0);
    var c := b.(entries := b.entries[id := e]);
    if !InTried(b, id) {
      var c' := c.(untried := Without(b.untried, id));
      var k := salt.TriedSlot(service);
      SlotsWithout(b.untried, id, id);
      TriedSoundRewritten(b, salt, id, e, Without(b.untried, id));
      DemoteSpares(c', salt, k, id);
      SlotsAfterUpdate(Demote(c', salt, k).tried, k, id, id);
    }
  }

  /** A time that must not be recorded breaks the laws whenever it is recorded. */
  lemma BadTimeBreaks(s: State, salt: Salt, op: Op)
    requires ValidState(s, salt) && !ValidOp(op)
    ensures ValidState(Apply(s, salt, op), salt) <==> !Knows(s.book, op.service)
  {
    var after, id := Apply(s, salt, op), IdOf(s.book, op.service.net);
    if Knows(s.book, op.service) {
      if op.Attempt? {
        assert after.book.entries[id].lastTry < 0 && !EntrySound(after.book, id);
      } else {
        GoodTimeIsKept(s, salt, op.service, op.time);
      }
    }
  }

  /**
   A request keeps the laws exactly when its time may be recorded, or is not recorded because the
   service is not known.
   */
  lemma KeptIff(s: State, salt: Salt, op: Op)
    requires ValidState(s, salt)
    ensures ValidState(Apply(s, salt, op), salt) <==> ValidOp(op) || !Knows(s.book, op.service)
  {
    hide ValidState, Apply, Knows;
    if ValidOp(op) {
      ApplyValid(s, salt, op);
    } else {
      BadTimeBreaks(s, salt, op);
    }
  }
}
