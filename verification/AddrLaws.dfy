/** What each request to the address manager records, forgets and leaves alone (addrman.cpp). */
module AddrLaws {
  import opened AddrBook
  import opened Digits

  ///////////////////////////////////////////////////////////////////////////////////////////////
  // Announcements
  ///////////////////////////////////////////////////////////////////////////////////////////////

  /** The book of a state in which the entry `id` was refreshed by an announcement. */
  ghost function Refreshed(s: State, id: int, op: Op): Book
    requires op.Add? && id in s.book.entries
  {
    s.book.(entries := s.book.entries[id := Refresh(s.book.entries[id], op.addr, op.penalty, op.now)])
  }

  /** An offer of one more slot keeps the entry, and changes its slots by the offered one at most. */
  lemma OfferToKnown(b: Book, salt: Salt, id: int, source: NetAddr, now: int)
    requires Sound(b, salt) && id in b.entries && SlotsOf(b.untried, id) != {}
    ensures var (after, u) := (Offer(b, salt, id, source, now), salt.NewSlot(b.entries[id].addr.service, source));
      && id in after.entries && after.entries[id] == b.entries[id] && after.tried == b.tried
      && SlotsOf(after.untried, id) - {u} == SlotsOf(b.untried, id) - {u}
      && (u in SlotsOf(after.untried, id) <==>
          || u in SlotsOf(b.untried, id)
          || u !in b.untried
          || b.entries[b.untried[u]].IsTerrible(now))
  {
    hide ClearSlot, Sound, Salt.NewSlot;
    var u := salt.NewSlot(b.entries[id].addr.service, source);
    assert UntriedSound(b, salt) by { SoundParts(b, salt); }
    ClearSlotEffect(b, u, id);
    SlotsAfterUpdate(ClearSlot(b, u).untried, u, id, id);
    if |SlotsOf(b.untried, id)| == 0 {
      assert false;
    }
  }

  lemma SoundParts(b: Book, salt: Salt)
    requires Sound(b, salt)
    ensures UntriedSound(b, salt) && forall i :: i in b.entries ==> EntrySound(b, i) && i >= 0
  {}

  /** The entry of a known peer after the announcement, and its slots. */
  lemma AddToKnown(s: State, salt: Salt, op: Op)
    requires ValidState(s, salt) && op.Add? && salt.routable(op.addr.service.net)
    requires IdOf(s.book, op.addr.service.net) != -1
    ensures var (id, after) := (IdOf(s.book, op.addr.service.net), Apply(s, salt, op));
      var c := Refreshed(s, id, op);
      && id in after.book.entries && after.nextId == s.nextId && after.book.entries[id] == c.entries[id]
      && after.book.tried == s.book.tried
      && if WantsSlot(c, id, op.addr, op.draw) then
           SlotsOf(s.book.untried, id) != {} && after.book == Offer(c, salt, id, op.source, op.now)
         else after.book == c
    ensures var c := Refreshed(s, IdOf(s.book, op.addr.service.net), op); ValidState(s.(book := c), salt)
  {
    var id := IdOf(s.book, op.addr.service.net);
    var c := Refreshed(s, id, op);
    RefreshValid(s, salt, id, op.addr, op.penalty, op.now);
    hide Refresh, Offer, SlotsOf;
    if WantsSlot(c, id, op.addr, op.draw) {
      OfferToKnown(c, salt, id, op.source, op.now);
    }
  }

  /** The time rule. */
  lemma RefreshedAddress(e: Entry, op: Op)
    requires op.Add?
    ensures var (was, kept) := (e.addr, Refresh(e, op.addr, op.penalty, op.now).addr);
      var interval := if op.now < op.addr.time + 86400 then 3600 else 86400;
      && Refresh(e, op.addr, op.penalty, op.now) == e.(addr := kept)
      && kept.service == was.service && kept.services == was.services | op.addr.services
      && kept.time == (
           if op.addr.time == 0 || (was.time > 0 && op.addr.time - was.time <= interval + op.penalty) then was.time
           else if op.addr.time <= op.penalty then 0
           else (op.addr.time - op.penalty) % 0x1_0000_0000)
      && (op.penalty >= 0 && op.addr.time < 0x1_0000_0000 ==> kept.time >= was.time)
  {}

  /**
   A known peer is announced again.  Its time is replaced by the announced one, less the penalty,
   exactly when that is known and the old one is missing or lies behind by more than the penalty and
   an hour, or a day for a peer that was not seen within a day.  The services add up, and no time goes
   back unless the penalty is negative.
   */
  lemma AnnouncedAgain(s: State, salt: Salt, op: Op)
    requires ValidState(s, salt) && op.Add? && salt.routable(op.addr.service.net)
    requires IdOf(s.book, op.addr.service.net) != -1
    ensures var (id, after) := (IdOf(s.book, op.addr.service.net), Apply(s, salt, op));
      && id in after.book.entries && after.nextId == s.nextId
      && var (was, kept) := (s.book.entries[id].addr, after.book.entries[id].addr);
         var interval := if op.now < op.addr.time + 86400 then 3600 else 86400;
         && after.book.entries[id] == s.book.entries[id].(addr := kept)
         && kept.service == was.service && kept.services == was.services | op.addr.services
         && kept.time == (
              if op.addr.time == 0 || (was.time > 0 && op.addr.time - was.time <= interval + op.penalty) then was.time
              else if op.addr.time <= op.penalty then 0
              else (op.addr.time - op.penalty) % 0x1_0000_0000)
         && (op.penalty >= 0 && op.addr.time < 0x1_0000_0000 ==> kept.time >= was.time)
  {
    hide Apply, Refresh, WantsSlot, Offer, ValidState;
    AddToKnown(s, salt, op);
    RefreshedAddress(s.book.entries[IdOf(s.book, op.addr.service.net)], op);
  }

  /** Nothing that is remembered about another peer changes, and nothing new is remembered. */
  lemma OthersAreLeftAlone(s: State, salt: Salt, op: Op, i: int)
    requires ValidState(s, salt) && ValidOp(op)
    requires i in Apply(s, salt, op).book.entries
    requires i != s.nextId && i != IdOf(s.book, (if op.Add? then op.addr.service else op.service).net)
    ensures i in s.book.entries && Apply(s, salt, op).book.entries[i] == s.book.entries[i]
  {
    if op.Add? {
      AddLeavesOthers(s, salt, op, i);
    } else if op.Good? {
      GoodLeavesOthers(s, salt, op, i);
    }
  }

  lemma AddLeavesOthers(s: State, salt: Salt, op: Op, i: int)
    requires ValidState(s, salt) && op.Add? && i in Apply(s, salt, op).book.entries
    requires i != s.nextId && i != IdOf(s.book, op.addr.service.net)
    ensures i in s.book.entries && Apply(s, salt, op).book.entries[i] == s.book.entries[i]
  {
    hide Refresh, WantsSlot, Offer;
    var b, id := s.book, IdOf(s.book, op.addr.service.net);
    if id == -1 {
      var e := NewEntry(op.addr, op.source, op.penalty);
      CreateSound(b, salt, s.nextId, e);
      OfferKeeps(b.(entries := b.entries[s.nextId := e]), salt, s.nextId, op.source, op.now);
    } else {
      RefreshValid(s, salt, id, op.addr, op.penalty, op.now);
      OfferKeeps(Refreshed(s, id, op), salt, id, op.source, op.now);
    }
  }

  lemma GoodLeavesOthers(s: State, salt: Salt, op: Op, i: int)
    requires ValidState(s, salt) && ValidOp(op) && op.Good? && i in Apply(s, salt, op).book.entries
    requires i != IdOf(s.book, op.service.net)
    ensures i in s.book.entries && Apply(s, salt, op).book.entries[i] == s.book.entries[i]
  {
    hide Promote, InTried;
    var b, id := s.book, IdOf(s.book, op.service.net);
    if id != -1 && b.entries[id].addr.service == op.service && !InTried(b, id) {
      var e := b.entries[id].(lastSuccess := op.time, lastTry := op.time, attempts := 0);
      GoodTriedSame(b, salt, id, e);
      PromoteLoss(b.(entries := b.entries[id := e]), salt, id);
    }
  }

  lemma GoodTriedSame(b: Book, salt: Salt, id: int, e: Entry)
    requires Consistent(b, salt) && id in b.entries && !InTried(b, id)
    requires e.addr.service == b.entries[id].addr.service && e.lastTry >= 0 && e.lastSuccess > 0
    ensures var c := b.(entries := b.entries[id := e]); Consistent(c, salt) && !InTried(c, id)
  {
    UpdateSound(b, salt, id, e);
  }

  /**
   When a known peer gets one more slot: it is announced with a time that is news even after the
   refresh, is untried, sits in fewer than 8 slots, has luck, which n slots make 2^n times rarer, and the
   slot is free or held by a bad entry.
   */
  lemma TakesOneMoreSlot(s: State, salt: Salt, op: Op)
    requires ValidState(s, salt) && op.Add? && salt.routable(op.addr.service.net)
    requires IdOf(s.book, op.addr.service.net) != -1
    requires var id := IdOf(s.book, op.addr.service.net);
      salt.NewSlot(s.book.entries[id].addr.service, op.source) !in SlotsOf(s.book.untried, id)
    ensures var (b, id, after) := (s.book, IdOf(s.book, op.addr.service.net), Apply(s, salt, op).book);
      var (u, n) := (salt.NewSlot(b.entries[id].addr.service, op.source), |SlotsOf(b.untried, id)|);
      && id in after.entries && after.tried == b.tried && Pow(2, n) > 0
      && SlotsOf(after.untried, id) - {u} == SlotsOf(b.untried, id)
      && (u in SlotsOf(after.untried, id) <==>
          && op.addr.time > 0
          && (after.entries[id].addr.time == 0 || after.entries[id].addr.time < op.addr.time)
          && SlotsOf(b.tried, id) == {}
          && n < 8
          && op.draw % Pow(2, n) == 0
          && (u !in b.untried || b.entries[b.untried[u]].IsTerrible(op.now)))
  {
    var id := IdOf(s.book, op.addr.service.net);
    var c := Refreshed(s, id, op);
    AddToKnown(s, salt, op);
    PowPositive(2, |SlotsOf(s.book.untried, id)|);
    SoundParts(s.book, salt);
    assert EntrySound(s.book, id);
    hide Apply, Offer, Refresh, ValidState, Sound, Salt.NewSlot;
    if WantsSlot(c, id, op.addr, op.draw) {
      SoundParts(c, salt);
      OfferToKnown(c, salt, id, op.source, op.now);
    }
  }

  /** What is remembered about a new peer, if anything: nothing but the announcement, in one slot. */
  lemma NewPeerIsRecorded(s: State, salt: Salt, op: Op)
    requires ValidState(s, salt) && op.Add? && salt.routable(op.addr.service.net)
    requires IdOf(s.book, op.addr.service.net) == -1 && IdOf(Apply(s, salt, op).book, op.addr.service.net) != -1
    ensures var (id, after) := (s.nextId, Apply(s, salt, op));
      var time := if op.addr.time <= op.penalty then 0 else (op.addr.time - op.penalty) % 0x1_0000_0000;
      && IdOf(after.book, op.addr.service.net) == id && after.nextId == id + 1
      && after.book.entries[id].addr == op.addr.(time := time) && after.book.entries[id].source == op.source
      && after.book.entries[id].lastTry == after.book.entries[id].lastSuccess == after.book.entries[id].attempts == 0
      && SlotsOf(after.book.untried, id) == {salt.NewSlot(op.addr.service, op.source)}
      && after.book.tried == s.book.tried
  {
    var b, id, e := s.book, s.nextId, NewEntry(op.addr, op.source, op.penalty);
    var c, u := b.(entries := b.entries[id := e]), salt.NewSlot(op.addr.service, op.source);
    CreateSound(b, salt, id, e);
    OfferKeeps(c, salt, id, op.source, op.now);
    ClearSlotEffect(c, u, id);
    SlotsAfterUpdate(ClearSlot(c, u).untried, u, id, id);
    var after := Apply(s, salt, op).book;
    forall i | i in after.entries && i != id ensures after.entries[i].Net() != op.addr.service.net {
      assert EntrySound(b, i);
    }
  }

  ///////////////////////////////////////////////////////////////////////////////////////////////
  // Connections
  ///////////////////////////////////////////////////////////////////////////////////////////////

  /**
   A success is recorded, and the peer sits in its tried slot only.  Whoever sat there before is back
   in the "new" table, in the slot of its own source; a peer that was tried already stays where it is.
   */
  lemma GoodIsTried(s: State, salt: Salt, service: Service, time: int)
    requires ValidState(s, salt) && Knows(s.book, service) && time > 0
    ensures var (b, id, k) := (s.book, IdOf(s.book, service.net), salt.TriedSlot(service));
      var after := Apply(s, salt, Good(service, time)).book;
      && id in after.entries && after.entries[id].addr == b.entries[id].addr
      && after.entries[id].source == b.entries[id].source
      && after.entries[id].lastSuccess == after.entries[id].lastTry == time && after.entries[id].attempts == 0
      && SlotsOf(after.tried, id) == {k} && SlotsOf(after.untried, id) == {}
      && (InTried(b, id) ==> after.tried == b.tried && after.untried == b.untried)
      && after.tried == b.tried[k := id]
      && (k in b.tried && b.tried[k] != id ==>
            var evicted := b.entries[b.tried[k]];
            && b.tried[k] in after.entries
            && SlotsOf(after.tried, b.tried[k]) == {}
            && SlotsOf(after.untried, b.tried[k]) == {salt.NewSlot(evicted.addr.service, evicted.source)})
  {
    var b, id := s.book, IdOf(s.book, service.net);
    var e := b.entries[id].(lastSuccess := time, lastTry := time, attempts := 0);
    UpdateSound(b, salt, id, e);
    if InTried(b, id) {
      StaysTried(b, salt, id);
    } else {
      PromotedFrom(b.(entries := b.entries[id := e]), salt, id);
    }
  }

  /** A tried entry has just its own slot. */
  lemma StaysTried(b: Book, salt: Salt, id: int)
    requires Consistent(b, salt) && InTried(b, id)
    ensures id in b.entries && SlotsOf(b.untried, id) == {}
    ensures SlotsOf(b.tried, id) == {salt.TriedSlot(b.entries[id].addr.service)}
  {
    var k :| k in SlotsOf(b.tried, id);
    TriedSlotUnique(b, salt, k);
    forall t | t in b.untried ensures b.untried[t] != id {
      assert !InTried(b, b.untried[t]);
    }
  }

  /** Promotion moves the entry to its tried slot and the occupant of that slot back. */
  lemma PromotedFrom(b: Book, salt: Salt, id: int)
    requires Consistent(b, salt) && id in b.entries && !InTried(b, id) && b.entries[id].lastSuccess != 0
    ensures var (k, after) := (salt.TriedSlot(b.entries[id].addr.service), Promote(b, salt, id));
      && id in after.entries && after.entries[id] == b.entries[id]
      && SlotsOf(after.tried, id) == {k} && SlotsOf(after.untried, id) == {}
      && after.tried == b.tried[k := id]
      && (k in b.tried ==>
            var evicted := b.entries[b.tried[k]];
            && b.tried[k] in after.entries
            && SlotsOf(after.tried, b.tried[k]) == {}
            && SlotsOf(after.untried, b.tried[k]) == {salt.NewSlot(evicted.addr.service, evicted.source)})
  {
    PromotionParts(b, salt, id);
    hide Consistent, Demote, Without, SlotsOf, Salt.NewSlot, Salt.TriedSlot;
    var k := salt.TriedSlot(b.entries[id].addr.service);
    var room := Demote(b.(untried := Without(b.untried, id)), salt, k);
    assert Promote(b, salt, id) == room.(tried := room.tried[k := id]);
    hide Promote;
    RefilledSlot(b.tried, k, id);
  }

  lemma RefilledSlot(t: Table, k: Slot, id: int)
    ensures (t - {k})[k := id] == t[k := id]
    ensures k in t && t[k] != id && SlotsOf(t, t[k]) == {k} ==> SlotsOf(t[k := id], t[k]) == {}
  {
    if k in t {
      SlotsAfterUpdate(t, k, id, t[k]);
    }
  }

  lemma PromotionParts(b: Book, salt: Salt, id: int)
    requires Consistent(b, salt) && id in b.entries && !InTried(b, id) && b.entries[id].lastSuccess != 0
    ensures forall s :: s in b.tried ==> b.tried[s] in b.entries
    ensures var k := salt.TriedSlot(b.entries[id].addr.service);
      var room := Demote(b.(untried := Without(b.untried, id)), salt, k);
      && SlotsOf(Promote(b, salt, id).tried, id) == {k}
      && id in room.entries && room.entries[id] == b.entries[id] && SlotsOf(room.untried, id) == {}
      && room.tried == b.tried - {k}
      && (k in b.tried ==>
            var evicted := b.entries[b.tried[k]];
            && b.tried[k] in room.entries && b.tried[k] != id && SlotsOf(b.tried, b.tried[k]) == {k}
            && SlotsOf(room.untried, b.tried[k]) == {salt.NewSlot(evicted.addr.service, evicted.source)})
  {
    var k := salt.TriedSlot(b.entries[id].addr.service);
    var c := b.(untried := Without(b.untried, id));
    PromoteSound(b, salt, id);
    WithoutSound(b, salt, id, {});
    SlotsWithout(b.untried, id, id);
    hide Promote, Demote, Without, Salt.NewSlot, Salt.TriedSlot;
    DemoteSound(c, salt, k, {id});
    DemoteSpares(c, salt, k, id);
    if k in b.tried {
      TriedSlotUnique(b, salt, k);
      assert k in SlotsOf(b.tried, b.tried[k]);
    }
  }

  /** A connection that stays up is noted only after twenty minutes, and nothing but its time. */
  lemma ConnectedAfterTwentyMinutes(s: State, salt: Salt, service: Service, time: int)
    requires ValidState(s, salt) && Knows(s.book, service)
    ensures var (b, id) := (s.book, IdOf(s.book, service.net));
      var (was, after) := (b.entries[id].addr.time, Apply(s, salt, Connected(service, time)));
      && id in after.book.entries && after.nextId == s.nextId
      && after.book.entries == b.entries[id := b.entries[id].(addr := after.book.entries[id].addr)]
      && after.book.entries[id].addr == b.entries[id].addr.(time :=
           if time <= was + 1200 then was else time % 0x1_0000_0000)
      && after.book.tried == b.tried && after.book.untried == b.untried
  {}

  /** A service that is not the one known changes nothing. */
  lemma StrangersAreIgnored(s: State, salt: Salt, op: Op)
    requires ValidState(s, salt) && !op.Add? && !Knows(s.book, op.service)
    ensures Apply(s, salt, op) == s
  {}

  ///////////////////////////////////////////////////////////////////////////////////////////////
  // Failures
  ///////////////////////////////////////////////////////////////////////////////////////////////

  function Attempts(service: Service, times: seq<int>): seq<Op> {
    if times == [] then [] else [Attempt(service, times[0])] + Attempts(service, times[1..])
  }

  lemma OneMoreAttempt(s: State, salt: Salt, service: Service, time: int)
    requires ValidState(s, salt) && Knows(s.book, service) && time >= 0
    ensures var (id, next) := (IdOf(s.book, service.net), Apply(s, salt, Attempt(service, time)));
      && ValidState(next, salt) && Knows(next.book, service) && IdOf(next.book, service.net) == id
      && next == s.(book := s.book.(entries := s.book.entries[id :=
           s.book.entries[id].(lastTry := time, attempts := s.book.entries[id].attempts + 1)]))
  {
    var id := IdOf(s.book, service.net);
    ApplyValid(s, salt, Attempt(service, time));
    var next := Apply(s, salt, Attempt(service, time)).book;
    hide UntriedSound, TriedSound;
    assert next.entries[id].Net() == service.net;
    assert forall i :: i in next.entries && next.entries[i].Net() == service.net ==> i == id;
    SoundParts(next, salt);
  }

  /** Attempts add up, and the last one is remembered. */
  lemma {:induction false} AttemptsAddUp(s: State, salt: Salt, service: Service, times: seq<int>)
    requires ValidState(s, salt) && Knows(s.book, service) && forall t :: t in times ==> t >= 0
    ensures forall op :: op in Attempts(service, times) ==> ValidOp(op)
    ensures var (id, after) := (IdOf(s.book, service.net), Run(s, salt, Attempts(service, times)));
      var e := s.book.entries[id];
      times != [] ==> after == s.(book := s.book.(entries := s.book.entries[id :=
        e.(lastTry := times[|times| - 1], attempts := e.attempts + |times|)]))
    decreases times
  {
    if times != [] {
      var ops, next := Attempts(service, times), Apply(s, salt, Attempt(service, times[0]));
      assert times[0] in times && forall t :: t in times[1..] ==> t in times;
      OneMoreAttempt(s, salt, service, times[0]);
      hide Apply, ValidState, Knows;
      assert ops[1..] == Attempts(service, times[1..]);
      AttemptsAddUp(next, salt, service, times[1..]);
      assert Run(s, salt, ops) == Run(next, salt, ops[1..]);
      hide Run, Attempts;
    }
  }

  /**
   When a peer that was tried in vain may be replaced: not within a minute; then if it was never seen
   within thirty days or claims to have been seen in the future, if it never answered three times, or if
   it did not answer ten times and last did so more than a week ago.
   */
  lemma GivenUp(s: State, salt: Salt, service: Service, times: seq<int>, now: int)
    requires ValidState(s, salt) && Knows(s.book, service) && times != [] && forall t :: t in times ==> t > 0
    ensures forall op :: op in Attempts(service, times) ==> ValidOp(op)
    ensures var (id, after) := (IdOf(s.book, service.net), Run(s, salt, Attempts(service, times)).book);
      var (e, last) := (s.book.entries[id], times[|times| - 1]);
      && id in after.entries
      && (after.entries[id].IsTerrible(now) <==>
          && now - last > 60
          && (|| e.addr.time == 0 || !(now - 30 * 86400 <= e.addr.time <= now + 600)
              || (e.lastSuccess == 0 && e.attempts + |times| >= 3)
              || (now - e.lastSuccess > 7 * 86400 && e.attempts + |times| >= 10)))
  {
    hide Entry.IsTerrible, Run, Attempts, ValidState;
    AttemptsAddUp(s, salt, service, times);
    assert times[|times| - 1] in times;
    var id, after := IdOf(s.book, service.net), Run(s, salt, Attempts(service, times)).book;
    var e := s.book.entries[id];
    var e' := e.(lastTry := times[|times| - 1], attempts := e.attempts + |times|);
    assert after.entries[id] == e';
    TerribleIs(e', now);
  }

  lemma TerribleIs(e: Entry, now: int)
    ensures e.IsTerrible(now) <==>
      && (e.lastTry == 0 || now - e.lastTry > 60)
      && (|| e.addr.time == 0 || !(now - 30 * 86400 <= e.addr.time <= now + 600)
          || (e.lastSuccess == 0 && e.attempts >= 3)
          || (now - e.lastSuccess > 7 * 86400 && e.attempts >= 10))
  {}

  ///////////////////////////////////////////////////////////////////////////////////////////////
  // Buckets
  ///////////////////////////////////////////////////////////////////////////////////////////////

  ghost function Image(f: nat -> nat, n: nat): set<nat> {
    set i | 0 <= i < n :: f(i)
  }

  lemma {:induction false} ImageSize(f: nat -> nat, n: nat)
    ensures |Image(f, n)| <= n
    decreases n
  {
    if n > 0 {
      ImageSize(f, n - 1);
      assert Image(f, n) == Image(f, n - 1) + {f(n - 1)};
    }
  }

  lemma InImage(f: nat -> nat, n: nat, i: nat)
    requires i < n
    ensures f(i) in Image(f, n)
  {}

  /** The addresses of one group reach at most eight of the tried buckets, whatever the hash. */
  lemma GroupReachesEightTried(salt: Salt, group: nat) returns (buckets: set<nat>)
    ensures |buckets| <= 8 && forall b :: b in buckets ==> b < 256
    ensures forall s: Service :: salt.group(s.net) == group ==> salt.TriedBucket(s) in buckets
  {
    var f := (i: nat) => salt.low64(TriedBucketOf(salt.key, group, i)) % TRIED_BUCKET_COUNT;
    buckets := Image(f, 8);
    ImageSize(f, 8);
    forall s: Service | salt.group(s.net) == group ensures salt.TriedBucket(s) in buckets {
      InImage(f, 8, salt.low64(TriedKey(salt.key, s)) % TRIED_BUCKETS_PER_GROUP);
    }
  }

  /** One group of sources reaches at most 64 of the "new" buckets, and one of them for each group of addresses. */
  lemma SourcesReachSixtyFourNew(salt: Salt, sources: nat) returns (buckets: set<nat>)
    ensures |buckets| <= 64 && forall b :: b in buckets ==> b < 1024
    ensures forall s: Service, from: NetAddr :: salt.group(from) == sources ==> salt.NewBucket(s, from) in buckets
    ensures forall s: Service, t: Service, from: NetAddr, other: NetAddr ::
      salt.group(from) == salt.group(other) && salt.group(s.net) == salt.group(t.net) ==>
      salt.NewBucket(s, from) == salt.NewBucket(t, other)
  {
    var f := (i: nat) => salt.low64(NewBucketOf(salt.key, sources, i)) % NEW_BUCKET_COUNT;
    buckets := Image(f, 64);
    ImageSize(f, 64);
    forall s: Service, from: NetAddr | salt.group(from) == sources ensures salt.NewBucket(s, from) in buckets {
      var spread := salt.low64(NewKey(salt.key, salt.group(s.net), sources)) % NEW_BUCKETS_PER_SOURCE_GROUP;
      InImage(f, 64, spread);
    }
  }
}
