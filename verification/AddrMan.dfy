/**
 CAddrMan: the address book of AddrBook.dfy together with the redundant indexes that make it fast.
 Every method is proved to keep all the indexes in step with the book and to act on the book as
 the operation of AddrBook.dfy that specifies it.
 */
module AddrMan {
  import opened AddrBook
  import opened AddrCheck
  import opened AddrFile
  import Digits

  const GETADDR_MAX_PCT: nat := 23
  const GETADDR_MAX: nat := 2500

  /** CAddrInfo: an entry of the book with its three index fields. */
  datatype AddrInfo = AddrInfo(entry: Entry, refCount: int, inTried: bool, randomPos: int)

  /** The array holds exactly the table, with -1 in every empty cell. */
  ghost predicate Holds(a: array2<int>, t: Table)
    reads a
  {
    && (forall b, p :: 0 <= b < a.Length0 && 0 <= p < a.Length1 ==>
          a[b, p] == if Slot(b, p) in t then t[Slot(b, p)] else -1)
    && (forall s :: s in t ==> s.bucket < a.Length0 && s.pos < a.Length1 && t[s] >= 0)
  }

  /** The fields of one entry agree with the book. */
  ghost predicate InfoOf(info: AddrInfo, b: Book, id: int)
    requires id in b.entries
  {
    && info.entry == b.entries[id]
    && info.refCount == |SlotsOf(b.untried, id)|
    && info.inTried == InTried(b, id)
  }

  ghost predicate InfoLinked(infos: map<int, AddrInfo>, b: Book) {
    && infos.Keys == b.entries.Keys
    && forall id :: id in infos ==> InfoOf(infos[id], b, id)
  }

  /** Writes one cell of a table; -1 empties it. */
  method Write(a: array2<int>, ghost t: Table, s: Slot, v: int)
    requires Holds(a, t) && s.bucket < a.Length0 && s.pos < a.Length1 && v >= -1
    modifies a
    ensures Holds(a, if v == -1 then t - {s} else t[s := v])
  {
    a[s.bucket, s.pos] := v;
  }

  /** The vector lists every id once, and each entry knows where. */
  ghost predicate RandomLinked(infos: map<int, AddrInfo>, random: seq<int>) {
    && (forall id :: id in infos ==> 0 <= infos[id].randomPos < |random| && random[infos[id].randomPos] == id)
    && (forall i :: 0 <= i < |random| ==> random[i] in infos && infos[random[i]].randomPos == i)
  }

  /** The index by network address is the inverse of the entries. */
  ghost predicate AddrLinked(infos: map<int, AddrInfo>, addrs: map<NetAddr, int>) {
    && (forall id :: id in infos ==> infos[id].entry.Net() in addrs && addrs[infos[id].entry.Net()] == id)
    && (forall net :: net in addrs ==> addrs[net] in infos && infos[addrs[net]].entry.Net() == net)
  }

  lemma InfoDeleted(infos: map<int, AddrInfo>, b: Book, id: int)
    requires InfoLinked(infos, b)
    ensures InfoLinked(infos - {id}, b.(entries := b.entries - {id}))
  {
    var c := b.(entries := b.entries - {id});
    forall i | i in infos && i != id ensures InfoOf(infos[i], c, i) {
      assert InfoOf(infos[i], b, i);
    }
  }

  lemma InfoRewritten(infos: map<int, AddrInfo>, b: Book, id: int, e: Entry)
    requires InfoLinked(infos, b) && id in infos
    ensures InfoLinked(infos[id := infos[id].(entry := e)], b.(entries := b.entries[id := e]))
  {
    var c := b.(entries := b.entries[id := e]);
    forall i | i in infos ensures InfoOf(infos[id := infos[id].(entry := e)][i], c, i) {
      assert InfoOf(infos[i], b, i);
    }
  }

  lemma InfoMoved(infos: map<int, AddrInfo>, b: Book, id: int, pos: int)
    requires InfoLinked(infos, b) && id in infos
    ensures InfoLinked(infos[id := infos[id].(randomPos := pos)], b)
  {
    assert InfoOf(infos[id], b, id);
  }

  lemma RandomAppended(infos: map<int, AddrInfo>, random: seq<int>, id: int, info: AddrInfo)
    requires RandomLinked(infos, random) && id !in infos && info.randomPos == |random|
    ensures RandomLinked(infos[id := info], random + [id])
  {}

  lemma RandomSwapped(infos: map<int, AddrInfo>, random: seq<int>, i: nat, j: nat)
    requires RandomLinked(infos, random) && i < |random| && j < |random| && i != j
    ensures random[i] != random[j]
    ensures var moved := infos[random[i] := infos[random[i]].(randomPos := j)];
      RandomLinked(moved[random[j] := moved[random[j]].(randomPos := i)], random[i := random[j]][j := random[i]])
  {}

  lemma RandomDropped(infos: map<int, AddrInfo>, random: seq<int>)
    requires RandomLinked(infos, random) && |random| > 0
    ensures RandomLinked(infos - {random[|random| - 1]}, random[..|random| - 1])
  {}

  lemma InfoCreated(infos: map<int, AddrInfo>, b: Book, id: int, e: Entry, pos: nat)
    requires InfoLinked(infos, b) && id !in infos && SlotsOf(b.untried, id) == {} && SlotsOf(b.tried, id) == {}
    ensures InfoLinked(infos[id := AddrInfo(e, 0, false, pos)], b.(entries := b.entries[id := e]))
  {
    var c := b.(entries := b.entries[id := e]);
    forall i | i in infos ensures InfoOf(infos[i], c, i) {
      assert InfoOf(infos[i], b, i);
    }
  }

  lemma AddrCreated(infos: map<int, AddrInfo>, addrs: map<NetAddr, int>, id: int, info: AddrInfo)
    requires AddrLinked(infos, addrs) && id !in infos && info.entry.Net() !in addrs
    ensures AddrLinked(infos[id := info], addrs[info.entry.Net() := id])
  {}

  lemma AddrDeleted(infos: map<int, AddrInfo>, addrs: map<NetAddr, int>, id: int)
    requires AddrLinked(infos, addrs) && id in infos
    ensures AddrLinked(infos - {id}, addrs - {infos[id].entry.Net()})
  {}

  lemma InfoUnslotted(infos: map<int, AddrInfo>, b: Book, s: Slot)
    requires InfoLinked(infos, b) && s in b.untried && b.untried[s] in infos
    ensures var id := b.untried[s];
      && infos[id].refCount > 0
      && InfoLinked(infos[id := infos[id].(refCount := infos[id].refCount - 1)], b.(untried := b.untried - {s}))
  {
    var id, c := b.untried[s], b.(untried := b.untried - {s});
    assert InfoOf(infos[id], b, id) && s in SlotsOf(b.untried, id);
    hide SlotsOf;
    var after := infos[id := infos[id].(refCount := infos[id].refCount - 1)];
    forall i | i in infos ensures InfoOf(after[i], c, i) {
      assert InfoOf(infos[i], b, i);
      SlotCountAfterRemoval(b.untried, s, i);
    }
  }

  lemma InfoSlotted(infos: map<int, AddrInfo>, b: Book, s: Slot, id: int)
    requires InfoLinked(infos, b) && s !in b.untried && id in infos
    ensures InfoLinked(infos[id := infos[id].(refCount := infos[id].refCount + 1)], b.(untried := b.untried[s := id]))
  {
    hide SlotsOf;
    var c := b.(untried := b.untried[s := id]);
    var after := infos[id := infos[id].(refCount := infos[id].refCount + 1)];
    forall i | i in infos ensures InfoOf(after[i], c, i) {
      assert InfoOf(infos[i], b, i);
      SlotCountAfterFill(b.untried, s, id, i);
    }
  }

  lemma InfoEvicted(infos: map<int, AddrInfo>, b: Book, k: Slot)
    requires InfoLinked(infos, b) && k in b.tried && b.tried[k] in infos && SlotsOf(b.tried, b.tried[k]) == {k}
    ensures var id := b.tried[k];
      InfoLinked(infos[id := infos[id].(inTried := false)], b.(tried := b.tried - {k}))
  {
    hide SlotsOf;
    var id, c := b.tried[k], b.(tried := b.tried - {k});
    var after := infos[id := infos[id].(inTried := false)];
    forall i | i in infos ensures InfoOf(after[i], c, i) {
      assert InfoOf(infos[i], b, i);
      SlotsAfterRemoval(b.tried, k, i);
      SlotCountAfterRemoval(b.tried, k, i);
    }
  }

  lemma InfoEntered(infos: map<int, AddrInfo>, b: Book, k: Slot, id: int)
    requires InfoLinked(infos, b) && k !in b.tried && id in infos
    ensures InfoLinked(infos[id := infos[id].(inTried := true)], b.(tried := b.tried[k := id]))
  {
    hide SlotsOf;
    var c := b.(tried := b.tried[k := id]);
    var after := infos[id := infos[id].(inTried := true)];
    forall i | i in infos ensures InfoOf(after[i], c, i) {
      assert InfoOf(infos[i], b, i);
      SlotCountAfterFill(b.tried, k, id, i);
    }
  }

  /** The "new" table without the slots of `id` in the first `n` buckets. */
  function WithoutBelow(t: Table, id: int, n: nat): Table {
    map s | s in t && (t[s] != id || s.bucket >= n) :: t[s]
  }

  lemma OwnEntry(info: AddrInfo, b: Book, id: int)
    requires id in b.entries && InfoOf(info, b, id)
    ensures info.entry == b.entries[id]
  {}

  lemma CountsSlots(info: AddrInfo, b: Book, id: int)
    requires id in b.entries && InfoOf(info, b, id)
    ensures SlotsOf(b.untried, id) == {} ==> info.refCount == 0
  {}

  lemma NoneBelow(t: Table, id: int)
    ensures WithoutBelow(t, id, 0) == t
  {}

  /** The one slot of a bucket that can hold an entry is the one it hashes to. */
  lemma OneMoreBelow(b: Book, salt: Salt, id: int, bucket: nat)
    requires UntriedSound(b, salt) && id in b.entries
    ensures var (t, s) := (WithoutBelow(b.untried, id, bucket), Slot(bucket, salt.Position(true, bucket, b.entries[id].addr.service)));
      && (s in t <==> s in b.untried) && (s in t ==> t[s] == b.untried[s] && t[s] in b.entries)
      && WithoutBelow(b.untried, id, bucket + 1) == if s in t && t[s] == id then t - {s} else t
  {}

  lemma AllBelow(b: Book, salt: Salt, id: int)
    requires UntriedSound(b, salt)
    ensures WithoutBelow(b.untried, id, NEW_BUCKET_COUNT) == Without(b.untried, id)
  {}

  /** Rewriting an entry in place, without its network address or its place in the vector. */
  lemma EntryRewritten(infos: map<int, AddrInfo>, addrs: map<NetAddr, int>, random: seq<int>, id: int, info: AddrInfo)
    requires RandomLinked(infos, random) && AddrLinked(infos, addrs) && id in infos
    requires info.entry.Net() == infos[id].entry.Net() && info.randomPos == infos[id].randomPos
    ensures RandomLinked(infos[id := info], random) && AddrLinked(infos[id := info], addrs)
  {}

  lemma NotTried(b: Book, id: int, addr: Address, draw: nat)
    requires id in b.entries && WantsSlot(b, id, addr, draw)
    ensures !InTried(b, id)
  {}

  lemma NoSlotNotTried(b: Book, id: int)
    requires SlotsOf(b.tried, id) == {}
    ensures !InTried(b, id)
  {}

  lemma SameLength(s: seq<int>, t: seq<int>)
    requires multiset(s) == multiset(t)
    ensures |s| == |t|
  {
    assert |multiset(s)| == |multiset(t)|;
  }

  lemma DistinctOf(b: Book, salt: Salt)
    requires Consistent(b, salt)
    ensures NetsDistinct(b)
  {}

  /** `picked` are the good ids among `seen`, in order, and `addrs` their addresses. */
  ghost predicate PickedFrom(seen: seq<int>, b: Book, now: int, picked: seq<int>, addrs: seq<Address>) {
    && |picked| == |addrs|
    && (forall i :: 0 <= i < |seen| ==> seen[i] in b.entries)
    && (forall i :: 0 <= i < |picked| ==>
          picked[i] in seen && picked[i] in b.entries && addrs[i] == b.entries[picked[i]].addr
          && !b.entries[picked[i]].IsTerrible(now))
    && (forall i, j :: 0 <= i < j < |picked| ==> picked[i] != picked[j])
    && (forall i :: 0 <= i < |seen| && !b.entries[seen[i]].IsTerrible(now) ==> seen[i] in picked)
  }

  lemma PickNone(b: Book, now: int)
    ensures PickedFrom([], b, now, [], [])
  {}

  lemma PickNext(seen: seq<int>, b: Book, now: int, picked: seq<int>, addrs: seq<Address>, id: int)
    requires PickedFrom(seen, b, now, picked, addrs) && id in b.entries && id !in seen
    ensures b.entries[id].IsTerrible(now) ==> PickedFrom(seen + [id], b, now, picked, addrs)
    ensures !b.entries[id].IsTerrible(now) ==>
      PickedFrom(seen + [id], b, now, picked + [id], addrs + [b.entries[id].addr])
  {
    assert forall i :: i in picked ==> i in picked + [id];
  }

  lemma PickedGood(seen: seq<int>, b: Book, now: int, picked: seq<int>, addrs: seq<Address>)
    requires PickedFrom(seen, b, now, picked, addrs)
    ensures forall a :: a in addrs ==> exists id :: id in b.entries && b.entries[id].addr == a && !b.entries[id].IsTerrible(now)
  {
    forall a | a in addrs ensures exists id :: id in b.entries && b.entries[id].addr == a && !b.entries[id].IsTerrible(now) {
      var i :| 0 <= i < |addrs| && addrs[i] == a;
      assert picked[i] in b.entries;
    }
  }

  lemma PickedDistinct(seen: seq<int>, b: Book, now: int, picked: seq<int>, addrs: seq<Address>)
    requires PickedFrom(seen, b, now, picked, addrs) && NetsDistinct(b)
    ensures forall i, j :: 0 <= i < j < |addrs| ==> addrs[i].service.net != addrs[j].service.net
  {
    forall i, j | 0 <= i < j < |addrs| ensures addrs[i].service.net != addrs[j].service.net {
      assert b.entries[picked[i]].Net() != b.entries[picked[j]].Net();
    }
  }

  lemma PickedComplete(seen: seq<int>, b: Book, now: int, picked: seq<int>, addrs: seq<Address>)
    requires PickedFrom(seen, b, now, picked, addrs)
    requires forall id :: id in b.entries ==> id in seen
    ensures forall id :: id in b.entries && !b.entries[id].IsTerrible(now) ==> b.entries[id].addr in addrs
  {
    forall id | id in b.entries && !b.entries[id].IsTerrible(now) ensures b.entries[id].addr in addrs {
      var i :| 0 <= i < |picked| && picked[i] == id;
      assert addrs[i] == b.entries[id].addr;
    }
  }

  ghost predicate NoPeers(b: Book) {
    forall id :: id !in b.entries
  }

  /** The tried ids and the other ids' reference counts, as far as the walk over the entries has come. */
  ghost predicate Collected(infos: map<int, AddrInfo>, setTried: set<int>, mapNew: map<int, int>, it: int) {
    && (forall id :: id in setTried <==> id in infos && 0 <= id < it && infos[id].inTried)
    && (forall id :: id in mapNew <==> id in infos && 0 <= id < it && !infos[id].inTried)
    && (forall id :: id in mapNew ==> mapNew[id] == infos[id].refCount)
  }

  lemma CollectNone(infos: map<int, AddrInfo>)
    ensures Collected(infos, {}, map[], 0)
  {}

  lemma CollectSkip(infos: map<int, AddrInfo>, setTried: set<int>, mapNew: map<int, int>, it: nat)
    requires Collected(infos, setTried, mapNew, it) && it !in infos
    ensures Collected(infos, setTried, mapNew, it + 1)
  {}

  lemma CollectTried(infos: map<int, AddrInfo>, setTried: set<int>, mapNew: map<int, int>, it: nat)
    requires Collected(infos, setTried, mapNew, it) && it in infos && infos[it].inTried
    ensures it !in setTried && Collected(infos, setTried + {it}, mapNew, it + 1)
  {
    assert it !in setTried;
  }

  lemma CollectNew(infos: map<int, AddrInfo>, setTried: set<int>, mapNew: map<int, int>, it: nat)
    requires Collected(infos, setTried, mapNew, it) && it in infos && !infos[it].inTried
    ensures it !in mapNew && Collected(infos, setTried, mapNew[it := infos[it].refCount], it + 1)
  {
    assert it !in mapNew;
  }

  lemma CollectedAll(infos: map<int, AddrInfo>, setTried: set<int>, mapNew: map<int, int>, n: int)
    requires Collected(infos, setTried, mapNew, n) && forall id :: id in infos ==> 0 <= id < n
    ensures forall id :: id in setTried <==> id in infos && infos[id].inTried
    ensures forall id :: id in mapNew <==> id in infos && !infos[id].inTried
    ensures forall id :: id in mapNew ==> mapNew[id] == infos[id].refCount
  {}

  lemma IdsStep(b: Book, n: nat)
    ensures forall tried :: |Ids(b, tried, n + 1)| == |Ids(b, tried, n)| + if n in b.entries && InTried(b, n) == tried then 1 else 0
  {}

  lemma {:induction false} VectorSize(infos: map<int, AddrInfo>, random: seq<int>)
    requires RandomLinked(infos, random)
    ensures |random| == |infos.Keys|
    decreases |random|
  {
    if random == [] {
      forall id ensures id !in infos.Keys {}
      NoneLeft(infos.Keys);
    } else {
      var last := random[|random| - 1];
      RandomDropped(infos, random);
      VectorSize(infos - {last}, random[..|random| - 1]);
      assert (infos - {last}).Keys == infos.Keys - {last};
    }
  }

  lemma NothingSaved(b: Book, tried: bool)
    ensures SavedList(b, tried, 0) == [] && Ids(b, tried, 0) == []
  {}

  class CAddrMan {
    const low64: HashInput -> nat
    const group: NetAddr -> nat
    const routable: NetAddr -> bool

    var nKey: nat
    var nIdCount: int
    var mapInfo: map<int, AddrInfo>
    var mapAddr: map<NetAddr, int>
    var vRandom: seq<int>
    var nTried: int
    const vvTried: array2<int>
    var nNew: int
    const vvNew: array2<int>

    ghost var book: Book

    function TheSalt(): Salt
      reads this`nKey
    {
      Salt(nKey, low64, group, routable)
    }

    ghost function TheState(): State
      reads this
    {
      State(book, nIdCount)
    }

    ghost predicate Shaped() {
      && vvTried.Length0 == TRIED_BUCKET_COUNT && vvTried.Length1 == BUCKET_SIZE
      && vvNew.Length0 == NEW_BUCKET_COUNT && vvNew.Length1 == BUCKET_SIZE
      && vvNew != vvTried
    }

    /** All indexes except the two counters are in step with the book. */
    ghost predicate Linked()
      reads this`book, this`mapInfo, this`mapAddr, this`vRandom, vvTried, vvNew
    {
      && Shaped()
      && Holds(vvNew, book.untried) && Holds(vvTried, book.tried)
      && InfoLinked(mapInfo, book)
      && RandomLinked(mapInfo, vRandom)
      && AddrLinked(mapInfo, mapAddr)
    }

    /** What the linked indexes say about one entry. */
    lemma LinkedInfo(id: int)
      requires Linked()
      ensures id in mapInfo <==> id in book.entries
      ensures id in mapInfo ==> InfoOf(mapInfo[id], book, id)
    {}

    lemma LinkedPlace(id: int)
      requires Linked() && id in mapInfo
      ensures 0 <= mapInfo[id].randomPos < |vRandom| && vRandom[mapInfo[id].randomPos] == id
    {}

    lemma LinkedNew(s: Slot)
      requires Linked()
      ensures vvNew.Length0 == NEW_BUCKET_COUNT && vvNew.Length1 == BUCKET_SIZE
      ensures s.bucket < NEW_BUCKET_COUNT && s.pos < BUCKET_SIZE ==>
        vvNew[s.bucket, s.pos] == if s in book.untried then book.untried[s] else -1
      ensures s in book.untried ==> book.untried[s] >= 0
    {}

    lemma LinkedTried(k: Slot)
      requires Linked()
      ensures vvTried.Length0 == TRIED_BUCKET_COUNT && vvTried.Length1 == BUCKET_SIZE
      ensures k.bucket < TRIED_BUCKET_COUNT && k.pos < BUCKET_SIZE ==>
        vvTried[k.bucket, k.pos] == if k in book.tried then book.tried[k] else -1
      ensures k in book.tried ==> book.tried[k] >= 0
    {}

    ghost predicate Counted()
      reads this`book, this`nNew, this`nTried
    {
      nTried == |book.tried.Keys| && nNew == |book.entries.Keys| - |book.tried.Keys|
    }

    ghost predicate Valid()
      reads this, vvTried, vvNew
    {
      Linked() && Counted() && ValidState(TheState(), TheSalt())
    }

    constructor (low64: HashInput -> nat, group: NetAddr -> nat, routable: NetAddr -> bool, key: nat)
      ensures Valid() && fresh(vvTried) && fresh(vvNew)
      ensures TheState() == State(EMPTY, 0) && TheSalt() == Salt(key, low64, group, routable)
    {
      this.low64, this.group, this.routable := low64, group, routable;
      vvNew := new int[NEW_BUCKET_COUNT, BUCKET_SIZE]((_, _) => -1);
      vvTried := new int[TRIED_BUCKET_COUNT, BUCKET_SIZE]((_, _) => -1);
      nKey, nIdCount, nTried, nNew := key, 0, 0, 0;
      mapInfo, mapAddr, vRandom := map[], map[], [];
      book := EMPTY;
    }

    method Find(net: NetAddr) returns (id: int)
      requires Linked() && Sound(book, TheSalt())
      ensures id == IdOf(book, net)
      ensures if id == -1 then net !in mapAddr else id in mapInfo
    {
      if net !in mapAddr {
        return -1;
      }
      id := mapAddr[net];
      assert EntrySound(book, id);
    }

    /** Puts an entry into every index except the tables. */
    method Load(id: int, e: Entry)
      requires Linked() && id !in mapInfo && e.Net() !in mapAddr
      requires SlotsOf(book.untried, id) == {} && SlotsOf(book.tried, id) == {}
      modifies this`mapInfo, this`mapAddr, this`vRandom, this`book
      ensures Linked() && book == old(book).(entries := old(book).entries[id := e])
      ensures id in mapInfo && mapInfo[id].entry == e && mapInfo[id].refCount == 0 && !mapInfo[id].inTried
    {
      ghost var created := AddrInfo(e, 0, false, |vRandom|);
      hide Holds, SlotsOf, InfoLinked, RandomLinked, AddrLinked;
      InfoCreated(mapInfo, book, id, e, |vRandom|);
      RandomAppended(mapInfo, vRandom, id, created);
      AddrCreated(mapInfo, mapAddr, id, created);
      mapInfo := mapInfo[id := AddrInfo(e, 0, false, |vRandom|)];
      mapAddr := mapAddr[e.Net() := id];
      vRandom := vRandom + [id];
      book := book.(entries := book.entries[id := e]);
    }

    method Create(addr: Address, source: NetAddr) returns (id: int)
      requires Linked() && nIdCount !in mapInfo && addr.service.net !in mapAddr
      requires SlotsOf(book.untried, nIdCount) == {} && SlotsOf(book.tried, nIdCount) == {}
      modifies this`nIdCount, this`mapInfo, this`mapAddr, this`vRandom, this`book
      ensures Linked() && id == old(nIdCount) && nIdCount == id + 1
      ensures id in mapInfo && mapInfo[id].entry == Entry(addr, source, 0, 0, 0)
      ensures book == old(book).(entries := old(book).entries[id := Entry(addr, source, 0, 0, 0)])
    {
      hide Linked;
      id := nIdCount;
      nIdCount := nIdCount + 1;
      Load(id, Entry(addr, source, 0, 0, 0));
    }

    method SwapRandom(pos1: nat, pos2: nat)
      requires Linked()
      requires pos1 == pos2 || (pos1 < |vRandom| && pos2 < |vRandom|)
      modifies this`mapInfo, this`vRandom
      ensures Linked()
      ensures pos1 == pos2 ==> vRandom == old(vRandom)
      ensures pos1 != pos2 ==> vRandom == old(vRandom)[pos1 := old(vRandom[pos2])][pos2 := old(vRandom[pos1])]
    {
      if pos1 == pos2 {
        return;
      }
      var id1, id2 := vRandom[pos1], vRandom[pos2];
      RandomSwapped(mapInfo, vRandom, pos1, pos2);
      InfoMoved(mapInfo, book, id1, pos2);
      mapInfo := mapInfo[id1 := mapInfo[id1].(randomPos := pos2)];
      InfoMoved(mapInfo, book, id2, pos1);
      mapInfo := mapInfo[id2 := mapInfo[id2].(randomPos := pos1)];
      vRandom := vRandom[pos1 := id2][pos2 := id1];
    }

    /** Deletes an entry that must not be in tried and must have reference count 0. */
    method Delete(id: int)
      requires Linked() && id in mapInfo && !mapInfo[id].inTried && mapInfo[id].refCount == 0
      modifies this`mapInfo, this`mapAddr, this`vRandom, this`nNew, this`book
      ensures Linked() && nNew == old(nNew) - 1
      ensures book == old(book).(entries := old(book).entries - {id})
    {
      hide *;
      LinkedPlace(id);
      LinkedInfo(id);
      SwapRandom(mapInfo[id].randomPos, |vRandom| - 1);
      LinkedInfo(id);
      DropLast(id);
      nNew := nNew - 1;
    }

    /** The last id of the vector leaves it and both maps. */
    method DropLast(id: int)
      requires Linked() && id in mapInfo && |vRandom| > 0 && vRandom[|vRandom| - 1] == id
      modifies this`mapInfo, this`mapAddr, this`vRandom, this`book
      ensures Linked() && book == old(book).(entries := old(book).entries - {id})
    {
      hide Holds, SlotsOf, InfoLinked, RandomLinked, AddrLinked;
      InfoDeleted(mapInfo, book, id);
      RandomDropped(mapInfo, vRandom);
      AddrDeleted(mapInfo, mapAddr, id);
      var random, addrs, infos := vRandom[..|vRandom| - 1], mapAddr - {mapInfo[id].entry.Net()}, mapInfo - {id};
      vRandom := random;
      mapAddr := addrs;
      mapInfo := infos;
      book := book.(entries := book.entries - {id});
    }

    lemma LinkedParts()
      requires Linked()
      ensures Shaped() && vvNew != vvTried && Holds(vvNew, book.untried) && Holds(vvTried, book.tried)
      ensures InfoLinked(mapInfo, book) && RandomLinked(mapInfo, vRandom) && AddrLinked(mapInfo, mapAddr)
    {}

    /** New entries that agree with tables already written. */
    method Relink(infos: map<int, AddrInfo>, ghost b: Book)
      requires Shaped() && Holds(vvNew, b.untried) && Holds(vvTried, b.tried)
      requires InfoLinked(infos, b) && RandomLinked(infos, vRandom) && AddrLinked(infos, mapAddr)
      modifies this`mapInfo, this`book
      ensures Linked() && mapInfo == infos && book == b
    {
      hide Holds, InfoLinked, RandomLinked, AddrLinked;
      mapInfo := infos;
      book := b;
    }

    /** Empties an occupied position of the "new" table and discounts the reference. */
    method DropNew(s: Slot) returns (id: int)
      requires Linked() && s in book.untried && book.untried[s] in mapInfo
      modifies this`mapInfo, this`book, vvNew
      ensures Linked() && book == old(book).(untried := old(book).untried - {s})
      ensures id == old(book).untried[s] && mapInfo.Keys == old(mapInfo.Keys)
    {
      hide *;
      LinkedNew(s);
      LinkedParts();
      id := vvNew[s.bucket, s.pos];
      InfoUnslotted(mapInfo, book, s);
      var info := mapInfo[id].(refCount := mapInfo[id].refCount - 1);
      EntryRewritten(mapInfo, mapAddr, vRandom, id, info);
      Write(vvNew, book.untried, s, -1);
      Relink(mapInfo[id := info], book.(untried := book.untried - {s}));
    }

    /** Writes an id into an empty position of the "new" table and counts the reference. */
    method FillNew(s: Slot, id: int)
      requires Linked() && id in mapInfo && id >= 0 && s !in book.untried
      requires s.bucket < NEW_BUCKET_COUNT && s.pos < BUCKET_SIZE
      modifies this`mapInfo, this`book, vvNew
      ensures Linked() && book == old(book).(untried := old(book).untried[s := id])
    {
      hide *;
      LinkedNew(s);
      LinkedParts();
      InfoSlotted(mapInfo, book, s, id);
      var info := mapInfo[id].(refCount := mapInfo[id].refCount + 1);
      EntryRewritten(mapInfo, mapAddr, vRandom, id, info);
      Write(vvNew, book.untried, s, id);
      Relink(mapInfo[id := info], book.(untried := book.untried[s := id]));
    }

    method LeaveTried(k: Slot) returns (id: int)
      requires Linked() && k in book.tried && book.tried[k] in mapInfo && SlotsOf(book.tried, book.tried[k]) == {k}
      modifies this`mapInfo, this`nTried, this`book, vvTried
      ensures Linked() && book == old(book).(tried := old(book).tried - {k})
      ensures id == old(book).tried[k] && nTried == old(nTried) - 1
    {
      hide *;
      LinkedTried(k);
      LinkedParts();
      id := vvTried[k.bucket, k.pos];
      InfoEvicted(mapInfo, book, k);
      var info := mapInfo[id].(inTried := false);
      EntryRewritten(mapInfo, mapAddr, vRandom, id, info);
      Write(vvTried, book.tried, k, -1);
      nTried := nTried - 1;
      Relink(mapInfo[id := info], book.(tried := book.tried - {k}));
    }

    /** Writes an id into an empty tried position. */
    method FillTried(k: Slot, id: int)
      requires Linked() && id in mapInfo && id >= 0 && k !in book.tried
      requires k.bucket < TRIED_BUCKET_COUNT && k.pos < BUCKET_SIZE
      modifies this`mapInfo, this`book, vvTried
      ensures Linked() && book == old(book).(tried := old(book).tried[k := id])
    {
      hide *;
      LinkedTried(k);
      LinkedParts();
      InfoEntered(mapInfo, book, k, id);
      var info := mapInfo[id].(inTried := true);
      EntryRewritten(mapInfo, mapAddr, vRandom, id, info);
      Write(vvTried, book.tried, k, id);
      Relink(mapInfo[id := info], book.(tried := book.tried[k := id]));
    }

    method EnterTried(k: Slot, id: int)
      requires Linked() && id in mapInfo && id >= 0 && k !in book.tried
      requires k.bucket < TRIED_BUCKET_COUNT && k.pos < BUCKET_SIZE
      modifies this`mapInfo, this`nTried, this`book, vvTried
      ensures Linked() && book == old(book).(tried := old(book).tried[k := id])
      ensures nTried == old(nTried) + 1
    {
      hide Linked;
      nTried := nTried + 1;
      FillTried(k, id);
    }

    /** Empties a position of the "new" table and deletes the occupant if it was its last one. */
    method ClearNew(bucket: nat, pos: nat)
      requires Linked() && UntriedSound(book, TheSalt())
      requires bucket < NEW_BUCKET_COUNT && pos < BUCKET_SIZE
      modifies this`mapInfo, this`mapAddr, this`vRandom, this`nNew, this`book, vvNew
      ensures Linked() && book == ClearSlot(old(book), Slot(bucket, pos))
      ensures nNew == old(nNew) - (|old(book).entries.Keys| - |book.entries.Keys|)
    {
      hide Linked, SlotsOf;
      ghost var s, before := Slot(bucket, pos), book;
      LinkedNew(s);
      if vvNew[bucket, pos] != -1 {
        LinkedInfo(book.untried[s]);
        var idDelete := DropNew(Slot(bucket, pos));
        LinkedInfo(idDelete);
        if mapInfo[idDelete].refCount == 0 {
          Delete(idDelete);
          assert book.entries.Keys == before.entries.Keys - {idDelete};
        }
      }
    }

    /** First half of MakeTried's "make space": the occupant of a tried slot moves back to the "new" table. */
    method Evict(k: Slot)
      requires Linked() && CanEvict(book, TheSalt(), k)
      modifies this`mapInfo, this`mapAddr, this`vRandom, this`nNew, this`nTried, this`book, vvNew, vvTried
      ensures Linked() && book == Demote(old(book), TheSalt(), k)
      ensures nTried == old(nTried) - 1
      ensures nNew == old(nNew) - (|old(book).entries.Keys| - |book.entries.Keys|) + 1
    {
      hide Linked, CanEvict, UntriedSound, Demote, ClearSlot, Place, SlotsOf;
      DemoteSteps(book, TheSalt(), k);
      LinkedInfo(book.tried[k]);
      var idEvict := LeaveTried(k);
      LinkedInfo(idEvict);
      var u := TheSalt().NewSlot(mapInfo[idEvict].entry.addr.service, mapInfo[idEvict].entry.source);
      ClearNew(u.bucket, u.pos);
      LinkedInfo(idEvict);
      FillNew(u, idEvict);
      nNew := nNew + 1;
    }

    /** MakeTried's "make space": the slot is vacated if it is taken. */
    method MakeRoom(k: Slot)
      requires Linked() && (k in book.tried ==> CanEvict(book, TheSalt(), k))
      requires k.bucket < TRIED_BUCKET_COUNT && k.pos < BUCKET_SIZE
      modifies this`mapInfo, this`mapAddr, this`vRandom, this`nNew, this`nTried, this`book, vvNew, vvTried
      ensures Linked() && book == Demote(old(book), TheSalt(), k)
      ensures nTried == old(nTried) - (if k in old(book).tried then 1 else 0)
      ensures nNew == old(nNew) - (|old(book).entries.Keys| - |book.entries.Keys|) + (if k in old(book).tried then 1 else 0)
    {
      LinkedTried(k);
      hide Linked, CanEvict;
      if vvTried[k.bucket, k.pos] != -1 {
        Evict(k);
      }
    }

    /** The loop at the head of MakeTried: drops every reference from the "new" table. */
    method DropAllNew(id: int)
      requires Linked() && UntriedSound(book, TheSalt()) && id in mapInfo && id >= 0
      modifies this`mapInfo, this`book, vvNew
      ensures Linked() && book == old(book).(untried := Without(old(book).untried, id))
      ensures mapInfo.Keys == old(mapInfo.Keys) && mapInfo[id].refCount == 0
    {
      hide Linked, SlotsOf, UntriedSound, WithoutBelow, Without, InfoOf;
      ghost var before, salt := book, TheSalt();
      LinkedInfo(id);
      OwnEntry(mapInfo[id], book, id);
      NoneBelow(before.untried, id);
      var service := mapInfo[id].entry.addr.service;
      var bucket := 0;
      while bucket < NEW_BUCKET_COUNT
        invariant 0 <= bucket <= NEW_BUCKET_COUNT
        invariant Linked() && book == before.(untried := WithoutBelow(before.untried, id, bucket))
        invariant mapInfo.Keys == old(mapInfo.Keys)
      {
        var pos := TheSalt().Position(true, bucket, service);
        LinkedNew(Slot(bucket, pos));
        OneMoreBelow(before, salt, id, bucket);
        if vvNew[bucket, pos] == id {
          var _ := DropNew(Slot(bucket, pos));
        }
        bucket := bucket + 1;
      }
      AllBelow(before, salt, id);
      SlotsWithout(before.untried, id, id);
      LinkedInfo(id);
      CountsSlots(mapInfo[id], book, id);
    }

    /** Moves an entry from the "new" table to the tried table, evicting whoever sits there. */
    method MakeTried(id: int)
      requires Linked() && Counted() && CanPromote(book, TheSalt(), id)
      modifies this`mapInfo, this`mapAddr, this`vRandom, this`nNew, this`nTried, this`book, vvNew, vvTried
      ensures Linked() && Counted() && book == Promote(old(book), TheSalt(), id)
    {
      hide Linked, UntriedSound, Demote, Promote, Without, SlotsOf, CanEvict, CanPromote, InTried;
      ghost var before, salt := book, TheSalt();
      PromoteSteps(before, salt, id);
      LinkedInfo(id);
      ghost var dropped := before.(untried := Without(before.untried, id));
      var k := TheSalt().TriedSlot(mapInfo[id].entry.addr.service);
      ghost var room, promoted := Demote(dropped, salt, k), Promote(before, salt, id);
      DropAllNew(id);
      nNew := nNew - 1;
      assert book == dropped;
      MakeRoom(k);
      assert book == room;
      LinkedInfo(id);
      EnterTried(k, id);
      assert book == promoted;
    }

    /** Assignments to the fields of an entry through a reference to it. */
    method Rewrite(id: int, e: Entry)
      requires Linked() && id in mapInfo && e.Net() == mapInfo[id].entry.Net()
      modifies this`mapInfo, this`book
      ensures Linked() && book == old(book).(entries := old(book).entries[id := e])
      ensures mapInfo == old(mapInfo)[id := old(mapInfo)[id].(entry := e)]
    {
      LinkedParts();
      hide Linked, Shaped, InfoLinked, RandomLinked, AddrLinked, Holds, SlotsOf, InTried;
      InfoRewritten(mapInfo, book, id, e);
      var info := mapInfo[id].(entry := e);
      EntryRewritten(mapInfo, mapAddr, vRandom, id, info);
      Relink(mapInfo[id := info], book.(entries := book.entries[id := e]));
    }

    /** Good_'s search for a bucket that holds the entry, from a random start; it always finds one. */
    method FindBucket(id: int, draw: nat) returns (bucket: int)
      requires Linked() && UntriedSound(book, TheSalt()) && id in mapInfo && SlotsOf(book.untried, id) != {}
      ensures 0 <= bucket < NEW_BUCKET_COUNT
      ensures Slot(bucket, TheSalt().Position(true, bucket, mapInfo[id].entry.addr.service)) in SlotsOf(book.untried, id)
    {
      hide Linked, InTried;
      var service := mapInfo[id].entry.addr.service;
      var start := draw % NEW_BUCKET_COUNT;
      bucket := -1;
      ghost var home :| home in SlotsOf(book.untried, id);
      LinkedInfo(id);
      assert TheSalt().Fits(home, book.entries[book.untried[home]].addr.service);
      ghost var turn := (home.bucket - start) % NEW_BUCKET_COUNT;
      assert (turn + start) % NEW_BUCKET_COUNT == home.bucket;
      hide UntriedSound;
      var n := 0;
      while n < NEW_BUCKET_COUNT
        invariant 0 <= n <= NEW_BUCKET_COUNT && bucket == -1
        invariant n <= turn
      {
        var b := (n + start) % NEW_BUCKET_COUNT;
        var pos := TheSalt().Position(true, b, service);
        LinkedNew(Slot(b, pos));
        LinkedNew(home);
        if vvNew[b, pos] == id {
          bucket := b;
          break;
        }
        n := n + 1;
      }
    }

    /**
     Marks an entry "good", possibly moving it from "new" to "tried".  All indexes and counters agree
     afterwards; the laws of the book hold unless the service is known and the time not positive.
     */
    method Good_(service: Service, time: int, draw: nat)
      requires Valid()
      modifies this, vvNew, vvTried
      ensures Linked() && Counted() && nKey == old(nKey)
      ensures TheState() == Apply(old(TheState()), TheSalt(), Good(service, time))
      ensures Valid() <==> time > 0 || !Knows(old(book), service)
    {
      hide Linked, Sound, Settled, SlotsOf, InTried, Promote, CanPromote, UntriedSound;
      ghost var s, salt := TheState(), TheSalt();
      KeptIff(s, salt, Good(service, time));
      var id := Find(service.net);
      if id == -1 {
        return;
      }
      LinkedInfo(id);
      var e := mapInfo[id].entry;
      if e.addr.service != service {
        return;
      }
      Rewrite(id, e.(lastSuccess := time, lastTry := time, attempts := 0));
      LinkedInfo(id);
      if mapInfo[id].inTried {
        return;
      }
      CanPromoteRewritten(s.book, salt, id, e.(lastSuccess := time, lastTry := time, attempts := 0));
      var bucket := FindBucket(id, draw);
      MakeTried(id);
    }

    method Attempt_(service: Service, time: int)
      requires Valid()
      modifies this`mapInfo, this`book
      ensures Linked() && Counted() && TheState() == Apply(old(TheState()), TheSalt(), Attempt(service, time))
      ensures Valid() <==> time >= 0 || !Knows(old(book), service)
    {
      hide Linked, Sound, Settled, SlotsOf, InTried, Promote, CanPromote, UntriedSound;
      ghost var s, salt := TheState(), TheSalt();
      KeptIff(s, salt, Attempt(service, time));
      var id := Find(service.net);
      if id == -1 {
        return;
      }
      LinkedInfo(id);
      var e := mapInfo[id].entry;
      if e.addr.service != service {
        return;
      }
      Rewrite(id, e.(lastTry := time, attempts := e.attempts + 1));
    }

    method Connected_(service: Service, time: int)
      requires Valid()
      modifies this`mapInfo, this`book
      ensures Valid() && TheState() == Apply(old(TheState()), TheSalt(), Connected(service, time))
    {
      hide Linked, Sound, Settled, SlotsOf, InTried, Promote, CanPromote, UntriedSound;
      ghost var s, salt := TheState(), TheSalt();
      ApplyValid(s, salt, Connected(service, time));
      var id := Find(service.net);
      if id == -1 {
        return;
      }
      LinkedInfo(id);
      var e := mapInfo[id].entry;
      if e.addr.service != service {
        return;
      }
      var interval := 20 * 60;
      if time - e.addr.time > interval {
        Rewrite(id, e.(addr := e.addr.(time := Time32(time))));
      }
    }

    /** The tail of Add_: the slot selected by `source` is offered to an entry. */
    method OfferSlot(id: int, source: NetAddr, now: int)
      requires Linked() && Sound(book, TheSalt()) && id in mapInfo && !mapInfo[id].inTried
      requires Counted()
      modifies this`mapInfo, this`mapAddr, this`vRandom, this`nNew, this`book, vvNew
      ensures Linked() && Counted() && book == Offer(old(book), TheSalt(), id, source, now)
    {
      hide Linked, SlotsOf, InTried, TriedSound, NetsDistinct, ClearSlot;
      ghost var before, salt := book, TheSalt();
      LinkedInfo(id);
      assert EntrySound(book, id);
      var s := TheSalt().NewSlot(mapInfo[id].entry.addr.service, source);
      LinkedNew(s);
      if vvNew[s.bucket, s.pos] != id {
        var insert := vvNew[s.bucket, s.pos] == -1;
        if !insert {
          LinkedInfo(before.untried[s]);
          var existing := mapInfo[vvNew[s.bucket, s.pos]];
          insert := existing.entry.IsTerrible(now) || (existing.refCount > 1 && mapInfo[id].refCount == 0);
        }
        assert insert == Yields(before, s, |SlotsOf(before.untried, id)|, now);
        if insert {
          ClearSlotEffect(book, s, id);
          ClearNew(s.bucket, s.pos);
          LinkedInfo(id);
          FillNew(s, id);
        } else if mapInfo[id].refCount == 0 {
          Delete(id);
          assert book.entries.Keys == before.entries.Keys - {id};
        }
      }
    }

    /** Time and services of a known peer that is announced again. */
    static method Update(known: Entry, addr: Address, penalty: int, now: int) returns (e: Entry)
      ensures e == Refresh(known, addr, penalty, now)
    {
      hide Time32, Merged;
      var time := known.addr.time;
      var currentlyOnline := now - addr.time < 24 * 60 * 60;
      var updateInterval := if currentlyOnline then 60 * 60 else 24 * 60 * 60;
      if addr.time != 0 && (time == 0 || time < addr.time - updateInterval - penalty) {
        time := Time32(Max(0, addr.time - penalty));
      }
      e := known.(addr := Address(known.addr.service, Merged(known.addr.services, addr.services), time));
    }

    /** The stochastic test: each reference makes it twice as hard to get another one. */
    static method Lucky(refCount: int, draw: nat) returns (ok: bool)
      requires refCount >= 0
      ensures Digits.Pow(2, refCount) > 0 && (ok <==> draw % Digits.Pow(2, refCount) == 0)
    {
      var factor, n := 1, 0;
      while n < refCount
        invariant 0 <= n <= refCount && factor == Digits.Pow(2, n) > 0
      {
        factor := factor * 2;
        n := n + 1;
      }
      return !(factor > 1 && draw % factor != 0);
    }

    /** The part of Add_ for a known address; returns whether the entry may take one more slot. */
    method Announce(id: int, addr: Address, penalty: int, now: int, draw: nat) returns (offer: bool)
      requires Linked() && id in mapInfo
      modifies this`mapInfo, this`book
      ensures Linked()
      ensures book == old(book).(entries := old(book).entries[id := Refresh(old(mapInfo)[id].entry, addr, penalty, now)])
      ensures offer == WantsSlot(book, id, addr, draw)
    {
      hide Linked, SlotsOf;
      var e := Update(mapInfo[id].entry, addr, penalty, now);
      hide Refresh;
      Rewrite(id, e);
      LinkedInfo(id);
      if addr.time == 0 || (e.addr.time != 0 && addr.time <= e.addr.time) {
        return false;
      }
      if mapInfo[id].inTried {
        return false;
      }
      if mapInfo[id].refCount == NEW_BUCKETS_PER_ADDRESS {
        return false;
      }
      offer := Lucky(mapInfo[id].refCount, draw);
    }

    /** The part of Add_ for an unknown address. */
    method Insert(addr: Address, source: NetAddr, penalty: int) returns (id: int)
      requires Linked() && Counted() && nIdCount !in mapInfo && addr.service.net !in mapAddr
      requires SlotsOf(book.untried, nIdCount) == {} && SlotsOf(book.tried, nIdCount) == {}
      modifies this`nIdCount, this`mapInfo, this`mapAddr, this`vRandom, this`nNew, this`book
      ensures Linked() && Counted() && id == old(nIdCount) && nIdCount == id + 1 && id in mapInfo
      ensures book == old(book).(entries := old(book).entries[id := NewEntry(addr, source, penalty)])
    {
      hide Linked, SlotsOf, InTried;
      LinkedInfo(nIdCount);
      id := Create(addr, source);
      var e := mapInfo[id].entry;
      Rewrite(id, e.(addr := e.addr.(time := Time32(Max(0, e.addr.time - penalty)))));
      nNew := nNew + 1;
    }

    /** Adds an address to the "new" table; returns whether it was not known before. */
    method Add_(addr: Address, source: NetAddr, penalty: int, now: int, draw: nat) returns (isNew: bool)
      requires Valid()
      modifies this`nIdCount, this`mapInfo, this`mapAddr, this`vRandom, this`nNew, this`book, vvNew
      ensures Valid() && TheState() == Apply(old(TheState()), TheSalt(), Add(addr, source, penalty, now, draw))
      ensures isNew <==> routable(addr.service.net) && IdOf(old(book), addr.service.net) == -1
    {
      hide Linked, Sound, Settled, SlotsOf, InTried, Offer, WantsSlot, Refresh;
      ghost var s, salt := TheState(), TheSalt();
      ApplyValid(s, salt, Add(addr, source, penalty, now, draw));
      if !routable(addr.service.net) {
        return false;
      }
      var id := Find(addr.service.net);
      LinkedInfo(id);
      if id != -1 {
        RefreshValid(s, salt, id, addr, penalty, now);
        var offer := Announce(id, addr, penalty, now, draw);
        assert book.entries.Keys == s.book.entries.Keys;
        LinkedInfo(id);
        if !offer {
          return false;
        }
        NotTried(book, id, addr, draw);
        isNew := false;
      } else {
        LinkedInfo(nIdCount);
        CreateSound(book, salt, nIdCount, NewEntry(addr, source, penalty));
        id := Insert(addr, source, penalty);
        LinkedInfo(id);
        NoSlotNotTried(book, id);
        isNew := true;
      }
      OfferSlot(id, source, now);
    }

    /** One exchange of the shuffle: what was drawn before stays. */
    method Draw(n: nat, pos: nat)
      requires Linked() && n <= pos < |vRandom|
      modifies this`mapInfo, this`vRandom
      ensures Linked() && multiset(vRandom) == multiset(old(vRandom)) && |vRandom| == |old(vRandom)|
      ensures vRandom[..n] == old(vRandom)[..n]
    {
      hide Linked;
      SwapRandom(n, pos);
    }

    /** The shuffle of GetAddr_: looks at the first n places until enough good entries are found. */
    method PickAddresses(now: int, draws: nat -> nat, nodes: nat) returns (vAddr: seq<Address>, ghost picked: seq<int>, n: nat)
      requires Linked()
      modifies this`mapInfo, this`vRandom
      ensures Linked() && multiset(vRandom) == multiset(old(vRandom)) && n <= |vRandom|
      ensures PickedFrom(vRandom[..n], book, now, picked, vAddr) && |vAddr| <= nodes
      ensures |vAddr| < nodes ==> n == |vRandom|
    {
      hide Linked, PickedFrom;
      PickNone(book, now);
      vAddr, picked := [], [];
      n := 0;
      assert vRandom[..n] == [];
      while n < |vRandom|
        invariant Linked() && n <= |vRandom| == |old(vRandom)|
        invariant multiset(vRandom) == multiset(old(vRandom))
        invariant PickedFrom(vRandom[..n], book, now, picked, vAddr) && |vAddr| <= nodes
      {
        if |vAddr| >= nodes {
          break;
        }
        var pos := draws(n) % (|vRandom| - n) + n;
        ghost var prefix := vRandom[..n];
        Draw(n, pos);
        RandomInfo(n);
        var e := mapInfo[vRandom[n]].entry;
        PickNext(prefix, book, now, picked, vAddr, vRandom[n]);
        assert vRandom[..n + 1] == prefix + [vRandom[n]];
        if !e.IsTerrible(now) {
          vAddr := vAddr + [e.addr];
          picked := picked + [vRandom[n]];
        }
        n := n + 1;
      }
    }

    /**
     Selects several addresses at once by shuffling the vector.  The result holds at most the
     sample size, only good entries, none twice, and every good entry when there is room for all.
     */
    method GetAddr_(now: int, draws: nat -> nat) returns (vAddr: seq<Address>)
      requires Valid()
      modifies this`mapInfo, this`vRandom
      ensures Valid() && multiset(vRandom) == multiset(old(vRandom))
      ensures |vAddr| <= 2500 && 100 * |vAddr| <= 23 * |vRandom|
      ensures forall a :: a in vAddr ==> exists id :: id in book.entries && book.entries[id].addr == a && !book.entries[id].IsTerrible(now)
      ensures forall i, j :: 0 <= i < j < |vAddr| ==> vAddr[i].service.net != vAddr[j].service.net
      ensures |vAddr| < 2500 && 100 * (|vAddr| + 1) <= 23 * |vRandom| ==>
        forall id :: id in book.entries && !book.entries[id].IsTerrible(now) ==> book.entries[id].addr in vAddr
    {
      hide Linked, Consistent, PickedFrom, NetsDistinct;
      var nodes := GETADDR_MAX_PCT * |vRandom| / 100;
      if nodes > GETADDR_MAX {
        nodes := GETADDR_MAX;
      }
      ghost var length := |vRandom|;
      ghost var picked;
      var n;
      vAddr, picked, n := PickAddresses(now, draws, nodes);
      assert |vRandom| == length by { SameLength(vRandom, old(vRandom)); }
      PickedGood(vRandom[..n], book, now, picked, vAddr);
      DistinctOf(book, TheSalt());
      PickedDistinct(vRandom[..n], book, now, picked, vAddr);
      if |vAddr| < nodes {
        assert vRandom[..n] == vRandom;
        RandomHasAll();
        PickedComplete(vRandom, book, now, picked, vAddr);
      }
    }

    lemma RandomInfo(n: nat)
      requires Linked() && n < |vRandom|
      ensures vRandom[n] in mapInfo && vRandom[n] in book.entries && mapInfo[vRandom[n]].entry == book.entries[vRandom[n]]
      ensures vRandom[n] !in vRandom[..n]
    {
      LinkedInfo(vRandom[n]);
      forall i | 0 <= i < n ensures vRandom[i] != vRandom[n] {
        assert mapInfo[vRandom[i]].randomPos == i && mapInfo[vRandom[n]].randomPos == n;
      }
    }

    lemma RandomHasAll()
      requires Linked()
      ensures forall id :: id in book.entries ==> id in vRandom
    {
      forall id | id in book.entries ensures id in vRandom {
        assert vRandom[mapInfo[id].randomPos] == id;
      }
    }

    /** First loop of Serialize, over the ids in ascending order; notes the index of every new entry. */
    method SaveNews() returns (news: seq<Entry>, mapUnkIds: map<int, int>)
      requires Valid()
      ensures news == SavedList(book, false, nIdCount)
      ensures forall id :: id in mapInfo ==> id in mapUnkIds && mapUnkIds[id] == |Ids(book, false, id)|
    {
      hide Linked, Consistent, InTried, SlotsOf, SavedList, Ids;
      ListSizes(TheState(), TheSalt());
      news, mapUnkIds := [], map[];
      var nIds, it := 0, 0;
      NothingSaved(book, false);
      IdsInRange();
      while it < nIdCount
        invariant 0 <= it <= nIdCount && nIds == |news| == |Ids(book, false, it)|
        invariant news == SavedList(book, false, it)
        invariant forall id :: id in mapUnkIds <==> id in mapInfo && id < it
        invariant forall id :: id in mapUnkIds ==> mapUnkIds[id] == |Ids(book, false, id)|
      {
        SavedListStep(book, false, it, nIdCount);
        LinkedInfo(it);
        if it in mapInfo {
          CountedIsUntried(TheState(), TheSalt(), it);
          mapUnkIds := mapUnkIds[it := nIds];
          var info := mapInfo[it];
          if info.refCount != 0 {
            assert nIds != nNew;
            news := news + [Fresh(info.entry)];
            nIds := nIds + 1;
          }
        }
        it := it + 1;
      }
    }

    lemma IdsInRange()
      requires Linked() && ValidState(TheState(), TheSalt())
      ensures forall id :: id in mapInfo ==> 0 <= id < nIdCount
    {
      forall id | id in mapInfo ensures 0 <= id < nIdCount {
        assert id in book.entries && EntrySound(book, id);
      }
    }

    /** Second loop of Serialize. */
    method SaveTrieds() returns (trieds: seq<Entry>)
      requires Valid()
      ensures trieds == SavedList(book, true, nIdCount)
    {
      hide Linked, Consistent, InTried, SlotsOf, SavedList, Ids;
      ListSizes(TheState(), TheSalt());
      trieds := [];
      var nIds, it := 0, 0;
      NothingSaved(book, true);
      while it < nIdCount
        invariant 0 <= it <= nIdCount && nIds == |trieds| == |Ids(book, true, it)|
        invariant trieds == SavedList(book, true, it)
      {
        SavedListStep(book, true, it, nIdCount);
        LinkedInfo(it);
        if it in mapInfo {
          var info := mapInfo[it];
          if info.inTried {
            assert nIds != nTried;
            trieds := trieds + [Fresh(info.entry)];
            nIds := nIds + 1;
          }
        }
        it := it + 1;
      }
    }

    lemma UntriedNumber(t: Slot)
      requires Linked() && ValidState(TheState(), TheSalt()) && t in book.untried
      ensures book.untried[t] in mapInfo && Number(TheState(), book.untried[t]) == |Ids(book, false, book.untried[t])|
    {}

    /** One bucket: the indexes of the entries in its occupied positions. */
    method SaveBucket(bucket: nat, mapUnkIds: map<int, int>) returns (list: seq<int>)
      requires Valid() && bucket < NEW_BUCKET_COUNT
      requires forall id :: id in mapInfo ==> id in mapUnkIds && mapUnkIds[id] == |Ids(book, false, id)|
      ensures list == Listed(TheState(), bucket, BUCKET_SIZE)
    {
      hide Linked, Consistent, InTried, SlotsOf, Number, Ids;
      list := [];
      var i: nat := 0;
      while i < BUCKET_SIZE
        invariant i <= BUCKET_SIZE && list == Listed(TheState(), bucket, i)
      {
        var t := Slot(bucket, i);
        LinkedNew(t);
        if vvNew[bucket, i] != -1 {
          UntriedNumber(t);
          list := list + [mapUnkIds[vvNew[bucket, i]]];
        }
        i := i + 1;
      }
    }

    /** Saves the address book; the assertions on both counters hold. */
    method Serialize() returns (f: Peers)
      requires Valid()
      ensures Countable(TheState()) && f == SavedOf(TheState(), nKey)
    {
      hide Linked, Consistent, InTried, SlotsOf, Number, Ids, Listed, SavedList;
      EnoughForSaving(TheState(), TheSalt());
      var news, mapUnkIds := SaveNews();
      var trieds := SaveTrieds();
      var buckets: seq<seq<int>> := [];
      var bucket: nat := 0;
      while bucket < NEW_BUCKET_COUNT
        invariant bucket <= NEW_BUCKET_COUNT && |buckets| == bucket
        invariant forall i :: 0 <= i < bucket ==> buckets[i] == Listed(TheState(), i, BUCKET_SIZE)
      {
        var list := SaveBucket(bucket, mapUnkIds);
        buckets := buckets + [list];
        bucket := bucket + 1;
      }
      f := Peers(1, nKey, news, trieds, buckets);
    }

    /** No cell of either table is in use. */
    ghost predicate TablesEmpty()
      reads vvTried, vvNew
    {
      Holds(vvNew, map[]) && Holds(vvTried, map[])
    }

    static method Wipe(table: array2<int>)
      modifies table
      ensures Holds(table, map[])
    {
      var bucket: nat := 0;
      while bucket < table.Length0
        invariant bucket <= table.Length0
        invariant forall b, p :: 0 <= b < bucket && 0 <= p < table.Length1 ==> table[b, p] == -1
      {
        var entry: nat := 0;
        while entry < table.Length1
          invariant entry <= table.Length1
          invariant forall b, p :: 0 <= b < bucket && 0 <= p < table.Length1 ==> table[b, p] == -1
          invariant forall p :: 0 <= p < entry ==> table[bucket, p] == -1
        {
          table[bucket, entry] := -1;
          entry := entry + 1;
        }
        bucket := bucket + 1;
      }
    }

    method WipeTables()
      requires Shaped()
      modifies vvTried, vvNew
      ensures TablesEmpty()
    {
      Wipe(vvNew);
      Wipe(vvTried);
    }

    /** What Clear writes. */
    method Reset(randomKey: nat)
      requires Shaped()
      modifies this`vRandom, this`nKey, this`nIdCount, this`nTried, this`nNew, vvTried, vvNew
      ensures vRandom == [] && nKey == randomKey && nIdCount == nTried == nNew == 0 && TablesEmpty()
    {
      hide TablesEmpty;
      vRandom := [];
      nKey := randomKey;
      WipeTables();
      nIdCount, nTried, nNew := 0, 0, 0;
    }

    /**
     Clears the vector, the tables and the counters but neither mapInfo nor mapAddr, so that the
     indexes of what is left agree with each other exactly when no peer was known before.
     */
    method Clear(randomKey: nat)
      requires Valid()
      modifies this, vvTried, vvNew
      ensures mapInfo == old(mapInfo) && mapAddr == old(mapAddr) && vRandom == []
      ensures nKey == randomKey && nIdCount == nTried == nNew == 0 && TablesEmpty()
      ensures RandomLinked(mapInfo, vRandom) <==> NoPeers(old(book))
      ensures mapInfo == map[] ==> book == EMPTY && Valid()
    {
      hide *;
      NoInfos();
      ghost var none := mapInfo == map[];
      Reset(randomKey);
      if none {
        ForgetBook();
      }
    }

    /** Nothing is known any more. */
    ghost method ForgetBook()
      requires Shaped() && TablesEmpty() && mapInfo == map[] && mapAddr == map[] && vRandom == []
      requires nIdCount == nTried == nNew == 0
      modifies this`book
      ensures book == EMPTY && Valid()
    {
      hide *;
      book := EMPTY;
      EmptyIsValid();
    }

    lemma NoInfos()
      requires Valid()
      ensures Shaped()
      ensures RandomLinked(mapInfo, []) <==> NoPeers(book)
      ensures mapInfo == map[] ==> mapAddr == map[]
    {
      assert NoPeers(book) <==> forall id :: id !in mapInfo;
    }

    lemma EmptyIsValid()
      requires Shaped() && TablesEmpty() && mapInfo == map[] && mapAddr == map[] && vRandom == []
      requires book == EMPTY && nIdCount == nTried == nNew == 0
      ensures Valid()
    {}

    lemma UnknownAddress(net: NetAddr)
      requires Linked() && Unknown(book, net)
      ensures net !in mapAddr
    {
      assert net in mapAddr ==> InfoOf(mapInfo[mapAddr[net]], book, mapAddr[net]);
    }

    /** First loop of Unserialize. */
    method LoadNews(f: Peers)
      requires Linked() && book == EMPTY && WellFormed(f)
      modifies this`mapInfo, this`mapAddr, this`vRandom, this`book, vvNew
      ensures Linked() && book == LoadNew(f, TheSalt(), |f.news|)
    {
      hide Linked, WellFormed, SlotsOf, Unknown;
      var n: nat := 0;
      while n < |f.news|
        invariant n <= |f.news| && Linked() && book == LoadNew(f, TheSalt(), n)
      {
        NextNew(f, TheSalt(), n);
        LinkedInfo(n);
        UnknownAddress(f.news[n].Net());
        var e := Fresh(f.news[n]);
        Load(n, e);
        if f.version != 1 || |f.buckets| != NEW_BUCKET_COUNT {
          var s := TheSalt().NewSlot(e.addr.service, e.source);
          LinkedNew(s);
          if vvNew[s.bucket, s.pos] == -1 {
            FillNew(s, n);
          }
        }
        n := n + 1;
      }
    }

    /** One saved tried entry; it is lost when its slot is taken. */
    method LoadTriedEntry(f: Peers, n: nat) returns (lost: bool)
      requires Linked() && n < |f.trieds| && Unknown(book, f.trieds[n].Net())
      requires nIdCount >= 0 && nIdCount !in book.entries
      requires SlotsOf(book.untried, nIdCount) == {} && SlotsOf(book.tried, nIdCount) == {}
      modifies this`nIdCount, this`mapInfo, this`mapAddr, this`vRandom, this`book, vvTried
      ensures Linked() && TheState() == AddTried(f, TheSalt(), old(TheState()), n)
      ensures nIdCount == old(nIdCount) + if lost then 0 else 1
    {
      hide Linked, SlotsOf, Unknown;
      LinkedInfo(nIdCount);
      UnknownAddress(f.trieds[n].Net());
      var e := Fresh(f.trieds[n]);
      var k := TheSalt().TriedSlot(e.addr.service);
      LinkedTried(k);
      if vvTried[k.bucket, k.pos] == -1 {
        Load(nIdCount, e);
        FillTried(k, nIdCount);
        nIdCount := nIdCount + 1;
        return false;
      }
      return true;
    }

    /** Second loop of Unserialize; counts the tried entries that are lost. */
    method LoadTrieds(f: Peers) returns (nLost: nat)
      requires Linked() && WellFormed(f) && nIdCount == |f.news| && book == LoadNew(f, TheSalt(), |f.news|)
      modifies this`nIdCount, this`mapInfo, this`mapAddr, this`vRandom, this`book, vvTried
      ensures Linked() && TheState() == LoadTried(f, TheSalt(), |f.trieds|)
      ensures |f.trieds| - nLost == |book.tried.Keys|
    {
      hide Linked, WellFormed, SlotsOf, Unknown, LoadNew, AddTried;
      nLost := 0;
      var n: nat := 0;
      while n < |f.trieds|
        invariant n <= |f.trieds| && nLost <= n
        invariant Linked() && TheState() == LoadTried(f, TheSalt(), n)
        invariant nIdCount == |f.news| + n - nLost
      {
        NextTried(f, TheSalt(), n);
        var lost := LoadTriedEntry(f, n);
        if lost {
          nLost := nLost + 1;
        }
        n := n + 1;
      }
      TriedGrowth(f, TheSalt(), |f.trieds|);
    }

    /** One saved reference. */
    method LoadReference(f: Peers, bucket: nat, nIndex: int)
      requires Linked() && Referenced(f, TheSalt(), book) && bucket < |f.buckets|
      modifies this`mapInfo, this`book, vvNew
      ensures Linked() && book == LoadSlot(f, TheSalt(), old(book), bucket, nIndex)
    {
      ReferencedIds(f, TheSalt(), book, nIndex);
      hide Linked, Referenced, SlotsOf;
      if nIndex >= 0 && nIndex < |f.news| {
        LinkedInfo(nIndex);
        var pos := TheSalt().Position(true, bucket, mapInfo[nIndex].entry.addr.service);
        LinkedNew(Slot(bucket, pos));
        if f.version == 1 && |f.buckets| == NEW_BUCKET_COUNT && vvNew[bucket, pos] == -1 &&
           mapInfo[nIndex].refCount < NEW_BUCKETS_PER_ADDRESS {
          FillNew(Slot(bucket, pos), nIndex);
        }
      }
    }

    /** Third loop of Unserialize. */
    method LoadReferences(f: Peers)
      requires Linked() && WellFormed(f) && book == LoadTried(f, TheSalt(), |f.trieds|).book
      modifies this`mapInfo, this`book, vvNew
      ensures Linked() && book == LoadBuckets(f, TheSalt(), |f.buckets|)
    {
      hide Linked, WellFormed, Referenced, LoadSlot, LoadTried;
      var bucket: nat := 0;
      while bucket < |f.buckets|
        invariant bucket <= |f.buckets| && Linked() && book == LoadBuckets(f, TheSalt(), bucket)
      {
        LoadBucketsSound(f, TheSalt(), bucket);
        ghost var before := book;
        var n: nat := 0;
        while n < |f.buckets[bucket]|
          invariant n <= |f.buckets[bucket]| && Linked() && book == LoadSlots(f, TheSalt(), before, bucket, n)
        {
          LoadSlotsSound(f, TheSalt(), before, bucket, n);
          LoadReference(f, bucket, f.buckets[bucket][n]);
          n := n + 1;
        }
        bucket := bucket + 1;
      }
    }

    /** Last loop of Unserialize: deletes the entries that ended up in neither table. */
    method Prune()
      requires Linked() && nIdCount >= 0 && forall i :: i in book.entries ==> i >= 0
      modifies this`mapInfo, this`mapAddr, this`vRandom, this`nNew, this`book
      ensures Linked() && book == Pruned(old(book), nIdCount)
      ensures nNew == old(nNew) - (|old(book).entries.Keys| - |book.entries.Keys|)
    {
      hide Linked, SlotsOf, Pruned;
      PrunedNone(book);
      ghost var before := book;
      var it: nat := 0;
      while it < nIdCount
        invariant it <= nIdCount && Linked() && book == before.(entries := Pruned(before, it).entries)
        invariant nNew == old(nNew) - (|before.entries.Keys| - |book.entries.Keys|)
      {
        PrunedStep(before, it);
        LinkedInfo(it);
        if it in mapInfo && !mapInfo[it].inTried && mapInfo[it].refCount == 0 {
          ghost var keys := book.entries.Keys;
          Delete(it);
          assert book.entries.Keys == keys - {it};
        }
        it := it + 1;
      }
      PrunedTables(before, nIdCount);
    }

    /** Loads a saved address book into a manager that knows no peer yet. */
    method Unserialize(f: Peers, randomKey: nat)
      requires Valid() && mapInfo == map[] && WellFormed(f)
      modifies this, vvTried, vvNew
      ensures Valid() && nKey == f.key && TheState() == Restored(f, TheSalt())
    {
      hide Linked, WellFormed, LoadNew, LoadTried, LoadBuckets, Consistent, Pruned, Referenced;
      Clear(randomKey);
      nKey := f.key;
      nNew := |f.news|;
      nTried := |f.trieds|;
      LoadNews(f);
      nIdCount := nNew;
      var nLost := LoadTrieds(f);
      TriedGrowth(f, TheSalt(), |f.trieds|);
      nTried := nTried - nLost;
      LoadReferences(f);
      LoadBucketsSound(f, TheSalt(), |f.buckets|);
      SameKeys(f, TheSalt(), book);
      Prune();
      RestoredIsValid(f, TheSalt());
      PrunedTables(LoadBuckets(f, TheSalt(), |f.buckets|), nIdCount);
    }

    /** What the indexes hold about one entry is what Check_ expects. */
    lemma EntryLinks(id: int)
      requires Linked() && ValidState(TheState(), TheSalt()) && id in mapInfo
      ensures var (info, e) := (mapInfo[id], mapInfo[id].entry);
        && 0 <= id < nIdCount && e.lastTry >= 0 && e.lastSuccess >= 0
        && (if info.inTried then e.lastSuccess != 0 && info.refCount == 0
            else 0 < info.refCount <= NEW_BUCKETS_PER_ADDRESS)
        && e.Net() in mapAddr && mapAddr[e.Net()] == id
        && 0 <= info.randomPos < |vRandom| && vRandom[info.randomPos] == id
        && info.inTried == InTried(book, id) && info.refCount == |SlotsOf(book.untried, id)|
    {
      hide SlotsOf, InTried;
      LinkedInfo(id);
      EntryChecks(TheState(), TheSalt(), id);
    }

    /** The tests of one entry. */
    method CheckEntry(id: int) returns (err: int)
      requires Valid() && id in mapInfo
      ensures err == 0
    {
      EntryLinks(id);
      hide Linked, ValidState, SlotsOf, InTried;
      var info := mapInfo[id];
      if info.inTried {
        if info.entry.lastSuccess == 0 { return -1; }
        if info.refCount != 0 { return -2; }
      } else {
        if info.refCount < 0 || info.refCount > NEW_BUCKETS_PER_ADDRESS { return -3; }
        if info.refCount == 0 { return -4; }
      }
      if info.entry.Net() !in mapAddr || mapAddr[info.entry.Net()] != id { return -5; }
      if info.randomPos < 0 || info.randomPos >= |vRandom| || vRandom[info.randomPos] != id { return -14; }
      if info.entry.lastTry < 0 { return -6; }
      if info.entry.lastSuccess < 0 { return -8; }
      return 0;
    }

    /** The first loop of Check_; finds nothing wrong and collects the tried ids and the reference counts. */
    method CheckEntries() returns (err: int, setTried: set<int>, mapNew: map<int, int>)
      requires Valid()
      ensures err == 0 && |setTried| == nTried && |mapNew| == nNew
      ensures forall id :: id in setTried <==> id in mapInfo && mapInfo[id].inTried
      ensures forall id :: id in mapNew <==> id in mapInfo && !mapInfo[id].inTried
      ensures forall id :: id in mapNew ==> mapNew[id] == mapInfo[id].refCount
    {
      hide Linked, ValidState, SlotsOf, InTried, Ids, Collected;
      err, setTried, mapNew := 0, {}, map[];
      CollectNone(mapInfo);
      NothingSaved(book, true);
      NothingSaved(book, false);
      ListSizes(TheState(), TheSalt());
      var it: nat := 0;
      StateSize();
      while it < nIdCount
        invariant it <= nIdCount && |setTried| == |Ids(book, true, it)| && |mapNew| == |Ids(book, false, it)|
        invariant Collected(mapInfo, setTried, mapNew, it)
      {
        LinkedInfo(it);
        IdsStep(book, it);
        if it in mapInfo {
          err := CheckEntry(it);
          if err != 0 {
            return;
          }
          var info := mapInfo[it];
          if info.inTried {
            CollectTried(mapInfo, setTried, mapNew, it);
            setTried := setTried + {it};
          } else {
            CollectNew(mapInfo, setTried, mapNew, it);
            mapNew := mapNew[it := info.refCount];
          }
        } else {
          CollectSkip(mapInfo, setTried, mapNew, it);
        }
        it := it + 1;
      }
      AllInRange();
      CollectedAll(mapInfo, setTried, mapNew, nIdCount);
    }

    lemma StateSize()
      requires Valid()
      ensures nIdCount >= 0
    {}

    lemma AllInRange()
      requires Linked() && ValidState(TheState(), TheSalt())
      ensures forall id :: id in mapInfo ==> 0 <= id < nIdCount
    {
      hide Linked, ValidState;
      forall id | id in mapInfo ensures 0 <= id < nIdCount {
        EntryLinks(id);
      }
    }

    /** The walk over the tried table; strikes every id off the set. */
    method CheckTried(tried: set<int>) returns (err: int, setTried: set<int>)
      requires Valid() && forall id :: id in tried <==> id in mapInfo && mapInfo[id].inTried
      ensures err == 0 && |setTried| == 0
    {
      hide Linked, ValidState, SlotsOf, Rest;
      err, setTried := 0, tried;
      TriedAhead(tried);
      var n: nat := 0;
      while n < TRIED_BUCKET_COUNT
        invariant n <= TRIED_BUCKET_COUNT && forall id :: id in setTried <==> Rest(book.tried, id, n, 0) != {}
      {
        var i: nat := 0;
        while i < BUCKET_SIZE
          invariant i <= BUCKET_SIZE && forall id :: id in setTried <==> Rest(book.tried, id, n, i) != {}
        {
          ghost var k := Slot(n, i);
          TriedPosition(n, i);
          if vvTried[n, i] != -1 {
            var id := vvTried[n, i];
            if id !in setTried { return -11, setTried; }
            if TheSalt().TriedBucket(mapInfo[id].entry.addr.service) != n { return -17, setTried; }
            if TheSalt().Position(false, n, mapInfo[id].entry.addr.service) != i { return -18, setTried; }
            setTried := setTried - {id};
          }
          i := i + 1;
        }
        TriedRow(n);
        n := n + 1;
      }
      NoTriedLeft();
      NoneLeft(setTried);
    }

    lemma TriedAhead(tried: set<int>)
      requires Valid() && forall id :: id in tried <==> id in mapInfo && mapInfo[id].inTried
      ensures forall id :: id in tried <==> Rest(book.tried, id, 0, 0) != {}
    {
      hide Linked;
      forall id ensures id in tried <==> Rest(book.tried, id, 0, 0) != {} {
        RestAll(book.tried, id);
        LinkedInfo(id);
        if k :| k in SlotsOf(book.tried, id) {
          assert book.tried[k] == id;
        }
      }
    }

    /** What the walk finds at one tried position. */
    lemma TriedPosition(n: nat, i: nat)
      requires Valid() && n < TRIED_BUCKET_COUNT && i < BUCKET_SIZE
      ensures vvTried.Length0 == TRIED_BUCKET_COUNT && vvTried.Length1 == BUCKET_SIZE
      ensures var v := vvTried[n, i];
        if v == -1 then forall id :: Rest(book.tried, id, n, i + 1) == Rest(book.tried, id, n, i)
        else
          && v in mapInfo && TheSalt().TriedSlot(mapInfo[v].entry.addr.service) == Slot(n, i)
          && Rest(book.tried, v, n, i) != {} && Rest(book.tried, v, n, i + 1) == {}
          && forall id :: id != v ==> Rest(book.tried, id, n, i + 1) == Rest(book.tried, id, n, i)
    {
      var k := Slot(n, i);
      LinkedTried(k);
      hide Linked, Rest, SlotsOf;
      RestsStep(book.tried, n, i);
      if k in book.tried {
        var v := book.tried[k];
        LinkedInfo(v);
        RestStep(book.tried, v, n, i);
        TriedSlotUnique(book, TheSalt(), k);
        RestWithin(book.tried, v, n, i);
      }
    }

    lemma TriedRow(n: nat)
      requires Valid()
      ensures forall id :: Rest(book.tried, id, n, BUCKET_SIZE) == Rest(book.tried, id, n + 1, 0)
    {
      hide Linked;
      forall id ensures Rest(book.tried, id, n, BUCKET_SIZE) == Rest(book.tried, id, n + 1, 0) {
        RestNextBucket(book.tried, id, n, TRIED_BUCKET_COUNT);
      }
    }

    lemma NoTriedLeft()
      requires Valid()
      ensures forall id :: Rest(book.tried, id, TRIED_BUCKET_COUNT, 0) == {}
    {
      hide Linked;
    }

    /** The walk over the "new" table; counts every reference down to zero. */
    method CheckNew(counts: map<int, int>) returns (err: int, mapNew: map<int, int>)
      requires Valid() && forall id :: id in counts <==> id in mapInfo && !mapInfo[id].inTried
      requires forall id :: id in counts ==> counts[id] == mapInfo[id].refCount
      ensures err == 0 && |mapNew| == 0
    {
      hide Linked, ValidState, SlotsOf, Rest, CountsAhead;
      err, mapNew := 0, counts;
      CountsStart(counts);
      var n: nat := 0;
      while n < NEW_BUCKET_COUNT
        invariant n <= NEW_BUCKET_COUNT && CountsAhead(book.untried, mapNew, n, 0)
      {
        var i: nat := 0;
        while i < BUCKET_SIZE
          invariant i <= BUCKET_SIZE && CountsAhead(book.untried, mapNew, n, i)
        {
          NewPosition(n, i);
          CountsStep(book.untried, mapNew, n, i);
          if vvNew[n, i] != -1 {
            var id := vvNew[n, i];
            if id !in mapNew { return -12, mapNew; }
            if TheSalt().Position(true, n, mapInfo[id].entry.addr.service) != i { return -19, mapNew; }
            mapNew := mapNew[id := mapNew[id] - 1];
            if mapNew[id] == 0 {
              mapNew := mapNew - {id};
            }
          }
          i := i + 1;
        }
        NewRow(mapNew, n);
        n := n + 1;
      }
      NoCountsLeft(mapNew);
    }

    lemma CountsStart(counts: map<int, int>)
      requires Valid() && forall id :: id in counts <==> id in mapInfo && !mapInfo[id].inTried
      requires forall id :: id in counts ==> counts[id] == mapInfo[id].refCount
      ensures CountsAhead(book.untried, counts, 0, 0)
    {
      hide Linked;
      forall id
        ensures id in counts <==> |Rest(book.untried, id, 0, 0)| > 0
        ensures id in counts ==> counts[id] == |Rest(book.untried, id, 0, 0)|
      {
        RestAll(book.untried, id);
        LinkedInfo(id);
        if id in mapInfo {
          CountedIsUntried(TheState(), TheSalt(), id);
        } else {
          forall t | t in book.untried ensures book.untried[t] != id {}
          assert SlotsOf(book.untried, id) == {};
        }
      }
    }

    /** What the walk finds at one "new" position. */
    lemma NewPosition(n: nat, i: nat)
      requires Valid() && n < NEW_BUCKET_COUNT && i < BUCKET_SIZE
      ensures vvNew.Length0 == NEW_BUCKET_COUNT && vvNew.Length1 == BUCKET_SIZE
      ensures var (v, t) := (vvNew[n, i], Slot(n, i));
        if v == -1 then t !in book.untried
        else
          && t in book.untried && v == book.untried[t] && v in mapInfo
          && TheSalt().Position(true, n, mapInfo[v].entry.addr.service) == i
    {
      var t := Slot(n, i);
      LinkedNew(t);
      if t in book.untried {
        LinkedInfo(book.untried[t]);
      }
    }

    lemma NewRow(mapNew: map<int, int>, n: nat)
      requires Valid() && CountsAhead(book.untried, mapNew, n, BUCKET_SIZE)
      ensures CountsAhead(book.untried, mapNew, n + 1, 0)
    {
      hide Linked;
      forall id ensures Rest(book.untried, id, n, BUCKET_SIZE) == Rest(book.untried, id, n + 1, 0) {
        RestNextBucket(book.untried, id, n, NEW_BUCKET_COUNT);
      }
      hide Rest;
    }

    lemma NoCountsLeft(mapNew: map<int, int>)
      requires Valid() && CountsAhead(book.untried, mapNew, NEW_BUCKET_COUNT, 0)
      ensures |mapNew| == 0
    {
      hide Linked;
      NoneLeft(mapNew.Keys);
    }

    lemma RandomSize()
      requires Valid()
      ensures |vRandom| == nTried + nNew
    {
      VectorSize(mapInfo, vRandom);
      assert |mapInfo.Keys| == |book.entries.Keys|;
    }

    /** The consistency check of the source finds nothing wrong; it only insists on a key besides. */
    method Check_() returns (err: int)
      requires Valid()
      ensures err == if nKey == 0 then -16 else 0
    {
      hide Linked, ValidState;
      RandomSize();
      if |vRandom| != nTried + nNew { return -7; }
      var setTried, mapNew;
      err, setTried, mapNew := CheckEntries();
      if err != 0 { return; }
      if |setTried| != nTried { return -9; }
      if |mapNew| != nNew { return -10; }
      err, setTried := CheckTried(setTried);
      if err != 0 { return; }
      err, mapNew := CheckNew(mapNew);
      if err != 0 { return; }
      if |setTried| != 0 { return -13; }
      if |mapNew| != 0 { return -15; }
      if nKey == 0 { return -16; }
      return 0;
    }
  }

  lemma PrunedTables(b: Book, n: int)
    ensures Pruned(b, n) == b.(entries := Pruned(b, n).entries)
  {}

  lemma SameKeys(f: Peers, salt: Salt, b: Book)
    requires Referenced(f, salt, b)
    ensures b.entries == LoadTried(f, salt, |f.trieds|).book.entries
    ensures b.tried == LoadTried(f, salt, |f.trieds|).book.tried
    ensures forall i :: i in b.entries ==> i >= 0
  {}
}
