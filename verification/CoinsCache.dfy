/**
 CCoinsViewCache: a write-back cache of unspent outputs stacked on another view.

 The first half is about values: what one layer shows over what lies below it, the invariant that
 ties a layer's DIRTY and FRESH flags to the layer below, and what flushing a layer does.  The
 second half is the class, whose instances form a stack over a database.
 */
module CoinsCache {
  import opened Coins

  type Txid = nat

  /** Hash of a block; 0 stands for none. */
  type Hash = nat

  datatype CacheEntry = CacheEntry(coins: CCoins, isDirty: bool, isFresh: bool)

  type Store = map<Txid, CCoins>
  type Cache = map<Txid, CacheEntry>

  /** What a reader sees of a cache on top of a store. */
  function Over(below: Store, c: Cache): Store {
    below + (map t | t in c :: c[t].coins)
  }

  /** What is spendable of a transaction; a missing entry and a fully spent one are the same. */
  datatype Coinage = Nothing | Something(coins: CCoins)

  function CoinageOf(c: CCoins): Coinage {
    if c.IsPruned() then Nothing else Something(c)
  }

  function At(s: Store, t: Txid): Coinage {
    if t in s then CoinageOf(s[t]) else Nothing
  }

  /** Two stores that nobody can tell apart. */
  ghost predicate Same(a: Store, b: Store) {
    forall t :: At(a, t) == At(b, t)
  }

  /** What the flags of one entry promise about the layer below, which holds an entry for each of `held`. */
  ghost predicate EntryOk(below: Store, held: set<Txid>, t: Txid, e: CacheEntry) {
    && e.coins.IsCleaned()
    && (e.isFresh <==> At(below, t) == Nothing)
    && (!e.isFresh ==> t in held)
    && (!e.isDirty ==> t in below && e.coins == below[t])
  }

  ghost predicate CacheOk(below: Store, held: set<Txid>, c: Cache) {
    forall t :: t in c ==> EntryOk(below, held, t, c[t])
  }

  ghost predicate StoreOk(s: Store) {
    forall t :: t in s ==> s[t].IsCleaned()
  }

  lemma OverAt(below: Store, c: Cache, t: Txid)
    ensures At(Over(below, c), t) == if t in c then CoinageOf(c[t].coins) else At(below, t)
    ensures t in Over(below, c) <==> t in c || t in below
    ensures t in c ==> Over(below, c)[t] == c[t].coins
    ensures t !in c && t in below ==> Over(below, c)[t] == below[t]
  {}

  lemma OverNothing(s: Store)
    ensures Over(s, map[]) == s
  {}

  lemma ChildEntry(below: Store, held: set<Txid>, c: Cache, t: Txid)
    requires CacheOk(below, held, c) && t in c
    ensures EntryOk(below, held, t, c[t])
  {}

  lemma HeldGrows(below: Store, held: set<Txid>, more: set<Txid>, c: Cache)
    requires CacheOk(below, held, c) && held <= more
    ensures CacheOk(below, more, c)
  {
    forall t | t in c ensures EntryOk(below, more, t, c[t]) {
      assert EntryOk(below, held, t, c[t]);
    }
  }

  /** Caching a copy of what lies below changes nothing for a reader. */
  lemma CachedCopy(below: Store, held: set<Txid>, c: Cache, t: Txid, e: CacheEntry)
    requires CacheOk(below, held, c) && t !in c && t in below && t in held
    requires e.coins == below[t] && e.coins.IsCleaned() && !e.isDirty && e.isFresh == e.coins.IsPruned()
    ensures CacheOk(below, held, c[t := e]) && Over(below, c[t := e]) == Over(below, c)
  {
    var d := c[t := e];
    CopyHidden(below, c, t, e);
    hide Over;
    forall u | u in d ensures EntryOk(below, held, u, d[u]) {
      assert u in c ==> EntryOk(below, held, u, c[u]);
    }
  }

  lemma CopyHidden(below: Store, c: Cache, t: Txid, e: CacheEntry)
    requires t !in c && t in below && e.coins == below[t]
    ensures Over(below, c[t := e]) == Over(below, c)
  {}

  /** Replacing or, when it is fresh and empty, dropping an entry after a modification. */
  lemma Modified(below: Store, held: set<Txid>, c: Cache, t: Txid, e: CacheEntry)
    requires CacheOk(below, held, c)
    requires e.isDirty && e.coins.IsCleaned() && (e.isFresh <==> At(below, t) == Nothing) && (e.isFresh || t in held)
    ensures var d := if e.isFresh && e.coins.IsPruned() then c - {t} else c[t := e];
      && CacheOk(below, held, d)
      && At(Over(below, d), t) == CoinageOf(e.coins)
      && forall u :: u != t ==> At(Over(below, d), u) == At(Over(below, c), u)
  {
    var d := if e.isFresh && e.coins.IsPruned() then c - {t} else c[t := e];
    forall u | u in d ensures EntryOk(below, held, u, d[u]) {
      assert u in c ==> EntryOk(below, held, u, c[u]);
    }
    hide Over;
    OverAt(below, d, t);
    forall u | u != t ensures At(Over(below, d), u) == At(Over(below, c), u) {
      OverAt(below, d, u);
      OverAt(below, c, u);
    }
  }

  ///////////////////////////////////////////////////////////////////////////////////////////////
  // Moving a layer down
  ///////////////////////////////////////////////////////////////////////////////////////////////

  /** The effect of BatchWrite for one entry of the child on the parent's cache. */
  function WriteOne(c: Cache, t: Txid, e: CacheEntry): Cache {
    if !e.isDirty then c
    else if t !in c then
      if e.coins.IsPruned() then c else c[t := CacheEntry(e.coins, true, true)]
    else if c[t].isFresh && e.coins.IsPruned() then c - {t}
    else c[t := CacheEntry(e.coins, true, c[t].isFresh)]
  }

  /**
   One entry of a child moves into its parent: the FRESH assertion of BatchWrite holds, the
   parent's invariant is kept, the parent now shows what the child showed for the transaction, and
   what it shows and holds for every other one is untouched.
   */
  lemma WriteOneOk(below: Store, held: set<Txid>, c: Cache, t: Txid, e: CacheEntry)
    requires CacheOk(below, held, c) && EntryOk(Over(below, c), c.Keys, t, e)
    ensures e.isDirty && t !in c && !e.coins.IsPruned() ==> e.isFresh
    ensures CacheOk(below, held, WriteOne(c, t, e))
    ensures At(Over(below, WriteOne(c, t, e)), t) == CoinageOf(e.coins)
    ensures forall u :: u != t ==> (u in WriteOne(c, t, e) <==> u in c) && (u in c ==> WriteOne(c, t, e)[u] == c[u])
  {
    var d := WriteOne(c, t, e);
    OverAt(below, c, t);
    OverAt(below, d, t);
    hide Over;
    forall u | u in d ensures EntryOk(below, held, u, d[u]) {
      assert u in c ==> EntryOk(below, held, u, c[u]);
    }
    assert t in c ==> EntryOk(below, held, t, c[t]);
  }

  /** Moving one entry of a child into its parent, seen from the child. */
  lemma WriteStep(below: Store, held: set<Txid>, c: Cache, child: Cache, t: Txid)
    requires CacheOk(below, held, c) && CacheOk(Over(below, c), c.Keys, child) && t in child
    ensures var d := WriteOne(c, t, child[t]);
      && CacheOk(below, held, d)
      && CacheOk(Over(below, d), d.Keys, child - {t})
      && Same(Over(Over(below, d), child - {t}), Over(Over(below, c), child))
  {
    var e, d := child[t], WriteOne(c, t, child[t]);
    assert EntryOk(Over(below, c), c.Keys, t, e);
    WriteOneOk(below, held, c, t, e);
    hide Over, WriteOne;
    forall u | u in child && u != t ensures EntryOk(Over(below, d), d.Keys, u, child[u]) {
      assert EntryOk(Over(below, c), c.Keys, u, child[u]);
      OverAt(below, c, u);
      OverAt(below, d, u);
    }
    forall u ensures At(Over(Over(below, d), child - {t}), u) == At(Over(Over(below, c), child), u) {
      OverAt(Over(below, d), child - {t}, u);
      OverAt(Over(below, c), child, u);
      OverAt(below, c, u);
      OverAt(below, d, u);
    }
  }

  /** Writing one entry of a cache to the database below it. */
  function Commit(db: Store, t: Txid, e: CacheEntry): Store {
    if !e.isDirty then db else if e.coins.IsPruned() then db - {t} else db[t := e.coins]
  }

  lemma CommitStep(db: Store, child: Cache, t: Txid)
    requires StoreOk(db) && CacheOk(db, db.Keys, child) && t in child
    ensures var d := Commit(db, t, child[t]);
      && StoreOk(d)
      && CacheOk(d, d.Keys, child - {t})
      && Same(Over(d, child - {t}), Over(db, child))
  {
    var e, d := child[t], Commit(db, t, child[t]);
    assert EntryOk(db, db.Keys, t, e);
    assert At(d, t) == CoinageOf(e.coins);
    assert forall u :: u != t ==> (u in d <==> u in db) && (u in d ==> d[u] == db[u]);
    hide Over, Commit;
    forall u | u in child && u != t ensures EntryOk(d, d.Keys, u, child[u]) {
      assert EntryOk(db, db.Keys, u, child[u]);
    }
    forall u ensures At(Over(d, child - {t}), u) == At(Over(db, child), u) {
      OverAt(d, child - {t}, u);
      OverAt(db, child, u);
    }
  }

  /** The database at the bottom of a stack of caches. */
  class CoinsViewDB {
    var coins: Store
    var hashBlock: Hash

    constructor ()
      ensures coins == map[] && hashBlock == 0
    {
      coins, hashBlock := map[], 0;
    }

    method BatchWrite(mapCoins: Cache, hashBlockIn: Hash)
      requires StoreOk(coins) && CacheOk(coins, coins.Keys, mapCoins)
      modifies this
      ensures StoreOk(coins) && Same(coins, Over(old(coins), mapCoins))
      ensures hashBlock == if hashBlockIn != 0 then hashBlockIn else old(hashBlock)
    {
      hide StoreOk, CacheOk, Over;
      var rest := mapCoins;
      while rest != map[]
        invariant hashBlock == old(hashBlock) && StoreOk(coins) && CacheOk(coins, coins.Keys, rest)
        invariant Same(Over(coins, rest), Over(old(coins), mapCoins))
        decreases |rest|
      {
        var t :| t in rest;
        CommitStep(coins, rest, t);
        if rest[t].isDirty {
          if rest[t].coins.IsPruned() {
            coins := coins - {t};
          } else {
            coins := coins[t := rest[t].coins];
          }
        }
        assert rest.Keys == (rest - {t}).Keys + {t};
        rest := rest - {t};
      }
      OverNothing(coins);
      if hashBlockIn != 0 {
        hashBlock := hashBlockIn;
      }
    }
  }

  /** A memory cache on top of another cache, or, when `base` is null, on top of the database. */
  class CoinsViewCache {
    const base: CoinsViewCache?
    const db: CoinsViewDB
    ghost const repr: set<object>

    var cacheCoins: Cache
    var hashBlock: Hash

    /** The shape of the stack below this cache, which never changes. */
    ghost predicate Stacked()
      decreases repr
    {
      && this in repr && db in repr
      && (base != null ==> base in repr && base.repr == repr - {this} && base.db == db && base.Stacked())
    }

    ghost function Below(): Store
      requires Stacked()
      reads repr
      decreases repr, 0
    {
      if base == null then db.coins else base.Shown()
    }

    ghost function Held(): set<Txid>
      requires Stacked()
      reads repr
    {
      if base == null then db.coins.Keys else base.cacheCoins.Keys
    }

    /** What GetCoins answers, for every transaction. */
    ghost function Shown(): Store
      requires Stacked()
      reads repr
      decreases repr, 1
    {
      Over(Below(), cacheCoins)
    }

    /** What GetBestBlock answers: the hash of the first layer that has one. */
    ghost function Best(): Hash
      requires Stacked()
      reads repr
      decreases repr, 1
    {
      if hashBlock != 0 then hashBlock else BestBelow()
    }

    ghost function BestBelow(): Hash
      requires Stacked()
      reads repr
      decreases repr, 0
    {
      if base == null then db.hashBlock else base.Best()
    }

    /**
     Does a flush keep the best block?  A cache that knows none overwrites what its base cache has, so
     that one must have none of its own, or the same as lies below it.
     */
    ghost predicate FlushKeepsBest()
      requires Stacked()
      reads repr
    {
      hashBlock != 0 || base == null || base.hashBlock == 0 || base.hashBlock == base.BestBelow()
    }

    ghost predicate Valid()
      reads repr
      decreases repr
    {
      && Stacked()
      && CacheOk(Below(), Held(), cacheCoins)
      && if base == null then StoreOk(db.coins) else base.Valid()
    }

    constructor OnDatabase(db: CoinsViewDB)
      requires StoreOk(db.coins)
      ensures Valid() && Shown() == db.coins && Best() == db.hashBlock
      ensures this.db == db && base == null && cacheCoins == map[] && hashBlock == 0
      ensures repr == {db, this} && fresh({this})
    {
      base, this.db, repr := null, db, {this, db};
      cacheCoins, hashBlock := map[], 0;
      new;
      assert Over(db.coins, map[]) == db.coins;
    }

    constructor OnCache(view: CoinsViewCache)
      requires view.Valid()
      ensures Valid() && Shown() == view.Shown() && Best() == view.Best()
      ensures base == view && this.db == view.db && cacheCoins == map[] && hashBlock == 0
      ensures repr == view.repr + {this} && fresh({this})
    {
      base, db, repr := view, view.db, view.repr + {this};
      cacheCoins, hashBlock := map[], 0;
      new;
      assert Over(view.Shown(), map[]) == view.Shown();
    }

    /** Looks a transaction up, caching what the layer below answers. */
    method FetchCoins(txid: Txid) returns (found: bool)
      requires Valid()
      modifies repr - {db}
      ensures Valid() && Shown() == old(Shown()) && old(cacheCoins.Keys) <= cacheCoins.Keys
      ensures Best() == old(Best()) && hashBlock == old(hashBlock)
      ensures found <==> txid in Shown()
      ensures found <==> txid in cacheCoins
      ensures found ==> cacheCoins[txid].coins == Shown()[txid]
      decreases repr, 1
    {
      hide Over, CacheOk, EntryOk;
      OverAt(Below(), cacheCoins, txid);
      if txid in cacheCoins {
        return true;
      }
      var got, tmp := BaseGetCoins(txid);
      if !got {
        return false;
      }
      var entry := CacheEntry(tmp, false, tmp.IsPruned());
      ghost var below := Below();
      CachedCopy(below, Held(), cacheCoins, txid, entry);
      cacheCoins := cacheCoins[txid := entry];
      assert Below() == below;
      OverAt(below, cacheCoins, txid);
      return true;
    }

    /** base->GetCoins: a virtual call to the cache or the database below. */
    method BaseGetCoins(txid: Txid) returns (found: bool, coins: CCoins)
      requires Valid()
      modifies repr - {db, this}
      ensures Valid() && Below() == old(Below()) && BestBelow() == old(BestBelow())
      ensures found <==> txid in Below()
      ensures found ==> coins == Below()[txid] && txid in Held() && coins.IsCleaned()
      decreases repr, 0
    {
      hide Over, EntryOk;
      if base == null {
        found := txid in db.coins;
        coins := if found then db.coins[txid] else EMPTY;
      } else {
        ghost var below, held := Below(), Held();
        found, coins := base.GetCoins(txid);
        HeldGrows(below, held, Held(), cacheCoins);
      }
    }

    method GetCoins(txid: Txid) returns (found: bool, coins: CCoins)
      requires Valid()
      modifies repr - {db}
      ensures Valid() && Shown() == old(Shown()) && old(cacheCoins.Keys) <= cacheCoins.Keys
      ensures Best() == old(Best()) && hashBlock == old(hashBlock)
      ensures found <==> txid in Shown()
      ensures found ==> coins == Shown()[txid] && txid in cacheCoins && coins.IsCleaned()
      decreases repr, 2
    {
      hide Over;
      found := FetchCoins(txid);
      coins := if found then cacheCoins[txid].coins else EMPTY;
      assert found ==> EntryOk(Below(), Held(), txid, cacheCoins[txid]);
    }

    /** Whether any output of a transaction is left, by looking only at the length of vout. */
    method HaveCoins(txid: Txid) returns (have: bool)
      requires Valid()
      modifies repr - {db}
      ensures Valid() && Shown() == old(Shown()) && Best() == old(Best())
      ensures have <==> At(Shown(), txid) != Nothing
    {
      hide Over;
      var found := FetchCoins(txid);
      assert found ==> EntryOk(Below(), Held(), txid, cacheCoins[txid]);
      have := found && cacheCoins[txid].coins.vout != [];
    }

    /** The entry that ModifyCoins hands out: the cached one, or a new one made from the base's answer. */
    method EntryFor(txid: Txid) returns (entry: CacheEntry)
      requires Valid()
      modifies repr - {db, this}
      ensures Valid() && Below() == old(Below()) && cacheCoins == old(cacheCoins) && BestBelow() == old(BestBelow())
      ensures entry.isFresh <==> At(Below(), txid) == Nothing
      ensures entry.isFresh || txid in Held()
      ensures entry.coins == if txid in Shown() then Shown()[txid] else EMPTY
    {
      hide Over;
      OverAt(Below(), cacheCoins, txid);
      if txid in cacheCoins {
        entry := cacheCoins[txid];
        assert EntryOk(Below(), Held(), txid, entry);
      } else {
        var got, coins := BaseGetCoins(txid);
        if !got {
          entry := CacheEntry(EMPTY, false, true);
        } else {
          entry := CacheEntry(coins, false, coins.IsPruned());
        }
      }
    }

    lemma ShownIsCleaned(txid: Txid)
      requires Valid() && txid in Shown()
      ensures Shown()[txid].IsCleaned()
      decreases repr
    {
      hide Over;
      OverAt(Below(), cacheCoins, txid);
      if txid in cacheCoins {
        assert EntryOk(Below(), Held(), txid, cacheCoins[txid]);
      } else if base != null {
        base.ShownIsCleaned(txid);
      }
    }

    /**
     One modification of a transaction, from ModifyCoins to the destruction of the modifier that it
     returns; `change` is what the caller does to the coins in between.
     */
    method ModifyCoins(txid: Txid, change: CCoins -> CCoins)
      requires Valid()
      modifies repr - {db}
      ensures Valid() && Below() == old(Below()) && Best() == old(Best())
      ensures At(Shown(), txid) ==
        CoinageOf(change(if txid in old(Shown()) then old(Shown())[txid] else EMPTY).Trimmed())
      ensures forall t :: t != txid ==> At(Shown(), t) == At(old(Shown()), t)
      ensures At(Below(), txid) != Nothing ==>
        txid in Shown() && Shown()[txid] == change(if txid in old(Shown()) then old(Shown())[txid] else EMPTY).Trimmed()
    {
      hide Over, EntryOk, CacheOk, Same;
      var entry := EntryFor(txid);
      entry := entry.(isDirty := true, coins := change(entry.coins));
      EndModifier(txid, entry);
    }

    /** The destruction of a modifier: the changed entry is cleaned up, and stored unless it is fresh and spent. */
    method EndModifier(txid: Txid, changed: CacheEntry)
      requires Valid() && changed.isDirty
      requires (changed.isFresh <==> At(Below(), txid) == Nothing) && (changed.isFresh || txid in Held())
      modifies this`cacheCoins
      ensures Valid() && Below() == old(Below()) && Best() == old(Best())
      ensures At(Shown(), txid) == CoinageOf(changed.coins.Trimmed())
      ensures forall t :: t != txid ==> At(Shown(), t) == At(old(Shown()), t)
      ensures At(Below(), txid) != Nothing ==> txid in Shown() && Shown()[txid] == changed.coins.Trimmed()
    {
      hide Over, EntryOk, CacheOk, Same, CoinageOf;
      ghost var below, held, before := Below(), Held(), cacheCoins;
      TrimmedKeepsOutputs(changed.coins);
      var cleaned := Cleanup(changed.coins);
      var entry := changed.(coins := cleaned);
      Modified(below, held, before, txid, entry);
      if entry.isFresh && entry.coins.IsPruned() {
        cacheCoins := cacheCoins - {txid};
      } else {
        cacheCoins := cacheCoins[txid := entry];
      }
      assert Below() == below && Held() == held;
      OverAt(below, cacheCoins, txid);
    }

    /** The best block, remembered once it is asked for. */
    method GetBestBlock() returns (hash: Hash)
      requires Valid()
      modifies repr - {db}
      ensures Valid() && Shown() == old(Shown()) && cacheCoins == old(cacheCoins)
      ensures hash == Best() == old(Best()) && hashBlock == hash && FlushKeepsBest()
      decreases repr
    {
      hide Over;
      if hashBlock == 0 {
        ghost var below, held := Below(), Held();
        if base == null {
          hashBlock := db.hashBlock;
        } else {
          var best := base.GetBestBlock();
          hashBlock := best;
        }
        assert Below() == below && Held() == held;
      }
      assert base != null ==> base.Best() == if base.hashBlock != 0 then base.hashBlock else base.BestBelow();
      hash := hashBlock;
    }

    method SetBestBlock(hashBlockIn: Hash)
      requires Valid()
      modifies this`hashBlock
      ensures Valid() && Shown() == old(Shown()) && BestBelow() == old(BestBelow()) && hashBlock == hashBlockIn
    {
      hashBlock := hashBlockIn;
    }

    /** Takes over the modified entries and the best block of a cache that sits on top of this one. */
    method BatchWrite(mapCoins: Cache, hashBlockIn: Hash)
      requires Valid() && CacheOk(Shown(), cacheCoins.Keys, mapCoins)
      modifies this`cacheCoins, this`hashBlock
      ensures Valid() && Below() == old(Below()) && BestBelow() == old(BestBelow()) && hashBlock == hashBlockIn
      ensures Same(Shown(), Over(old(Shown()), mapCoins))
    {
      hide Over, CacheOk, EntryOk, Same;
      ghost var below, held := Below(), Held();
      cacheCoins := TakeAll(below, held, cacheCoins, mapCoins);
      hashBlock := hashBlockIn;
      assert Below() == below && Held() == held;
    }

    /** BatchWrite's loop over the entries of the child, in any order. */
    static method TakeAll(ghost below: Store, ghost held: set<Txid>, c: Cache, mapCoins: Cache) returns (d: Cache)
      requires CacheOk(below, held, c) && CacheOk(Over(below, c), c.Keys, mapCoins)
      ensures CacheOk(below, held, d)
      ensures Same(Over(below, d), Over(Over(below, c), mapCoins))
    {
      hide Over, CacheOk, EntryOk, WriteOne;
      var rest := mapCoins;
      d := c;
      while rest != map[]
        invariant CacheOk(below, held, d)
        invariant CacheOk(Over(below, d), d.Keys, rest)
        invariant Same(Over(Over(below, d), rest), Over(Over(below, c), mapCoins))
        decreases |rest|
      {
        var t :| t in rest;
        WriteStep(below, held, d, rest, t);
        ChildEntry(Over(below, d), d.Keys, rest, t);
        d := TakeEntry(below, held, d, t, rest[t]);
        assert rest.Keys == (rest - {t}).Keys + {t};
        rest := rest - {t};
      }
      OverNothing(Over(below, d));
    }

    /** The body of BatchWrite's loop. */
    static method TakeEntry(ghost below: Store, ghost held: set<Txid>, c: Cache, t: Txid, e: CacheEntry) returns (d: Cache)
      requires CacheOk(below, held, c) && EntryOk(Over(below, c), c.Keys, t, e)
      ensures d == WriteOne(c, t, e)
    {
      WriteOneOk(below, held, c, t, e);
      d := c;
      if e.isDirty {
        if t !in c {
          if !e.coins.IsPruned() {
            assert e.isFresh;
            d := c[t := CacheEntry(e.coins, true, true)];
          }
        } else if c[t].isFresh && e.coins.IsPruned() {
          d := c - {t};
        } else {
          d := c[t := c[t].(coins := e.coins, isDirty := true)];
        }
      }
    }

    /** Pushes the modifications of this cache to its base. */
    method Flush()
      requires Valid()
      modifies repr
      ensures Valid() && cacheCoins == map[] && hashBlock == old(hashBlock)
      ensures Best() == old(Best()) <==> old(FlushKeepsBest())
      ensures BestBelow() ==
        if hashBlock != 0 then hashBlock else if base == null then old(db.hashBlock) else old(base.BestBelow())
      ensures Same(Below(), old(Shown())) && Same(Shown(), old(Shown()))
    {
      hide Over;
      if base == null {
        db.BatchWrite(cacheCoins, hashBlock);
      } else {
        assert base.Best() == if base.hashBlock != 0 then base.hashBlock else base.BestBelow();
        base.BatchWrite(cacheCoins, hashBlock);
        assert base.Best() == if hashBlock != 0 then hashBlock else base.BestBelow();
      }
      cacheCoins := map[];
      OverNothing(Below());
    }
  }

  ///////////////////////////////////////////////////////////////////////////////////////////////
  // A whole run over a growing and shrinking stack
  ///////////////////////////////////////////////////////////////////////////////////////////////

  datatype Op =
    | Modify(txid: Txid, change: CCoins -> CCoins)
    | Read(txid: Txid)
    | Have(txid: Txid)
    | SetBest(hash: Hash)
    | AskBest
    | Push
    | FlushTip

  datatype Answer = Silent | Shows(coinage: Coinage) | Has(have: bool) | BestIs(hash: Hash)

  function ReplaceBy(coins: CCoins): CCoins -> CCoins {
    _ => coins
  }

  /** What a modification of `c` leaves for a reader. */
  function Left(change: CCoins -> CCoins, c: CCoins): Coinage {
    CoinageOf(change(c).Trimmed())
  }

  /**
   A modification that starts from a fully spent entry leaves the same for a reader as one that starts
   from a new entry, whatever flags, height and version the spent entry still remembers.
   */
  ghost predicate Respectful(op: Op) {
    op.Modify? ==> forall c: CCoins :: c.vout == [] ==> Left(op.change, c) == Left(op.change, EMPTY)
  }

  /** The best block was asked for, or set to a block. */
  predicate Informs(op: Op) {
    op.AskBest? || (op.SetBest? && op.hash != 0)
  }

  predicate InformedAt(ops: seq<Op>, n: nat)
    requires n < |ops|
  {
    && (ops[n].FlushTip? ==> n > 0 && Informs(ops[n - 1]))
    && (ops[n].SetBest? ==> Informs(ops[n]))
  }

  /** Every flush comes right after the best block was asked for or set, and it is never set to none. */
  predicate Informed(ops: seq<Op>) {
    forall n :: 0 <= n < |ops| ==> InformedAt(ops, n)
  }

  /** Spending an output, as connecting a block does for each input. */
  lemma SpendingIsRespectful(t: Txid, n: nat)
    ensures Respectful(Modify(t, c => SpentIfThere(c, n)))
  {}

  /** Replacing the coins, as connecting and disconnecting a block do for the outputs of a transaction. */
  lemma ReplacingIsRespectful(t: Txid, coins: CCoins)
    ensures Respectful(Modify(t, ReplaceBy(coins)))
  {}

  lemma RestoredLeaves(c: CCoins, n: nat, undo: TxInUndo)
    requires c.vout == []
    ensures CoinageOf(Restored(c, n, undo).Trimmed()) ==
      if undo.txout.IsNull() then Nothing else Something(Restored(c, n, undo))
  {
    var r := Restored(c, n, undo);
    TrimmedKeepsOutputs(r);
    assert |r.vout| == n + 1 && r.vout[n] == undo.txout;
    assert forall i :: 0 <= i < n ==> r.vout[i].IsNull();
  }

  /**
   Restoring a spent output, as disconnecting a block does for each input: undo data without a height
   keeps the rest of the entry it finds, also of a fully spent one, which the source reports as damaged.
   */
  lemma RestoringIsRespectful(t: Txid, n: nat, undo: TxInUndo)
    ensures Respectful(Modify(t, c => Restored(c, n, undo))) <==> undo.height != 0 || undo.txout.IsNull()
  {
    hide Coins.CCoins.Trimmed, CoinageOf;
    var change := (c: CCoins) => Restored(c, n, undo);
    forall c: CCoins | c.vout == []
      ensures Left(change, c) == if undo.txout.IsNull() then Nothing else Something(Restored(c, n, undo))
    {
      RestoredLeaves(c, n, undo);
    }
    var stale := EMPTY.(height := 1);
    assert stale.vout == [] && (undo.height == 0 ==> Restored(stale, n, undo).height == 1);
    assert undo.height == 0 ==> Restored(EMPTY, n, undo).height == 0;
  }

  /** One flat map with one best block. */
  datatype Flat = Flat(coins: Store, best: Hash)

  /** A request answered by the flat map. */
  ghost function FlatStep(f: Flat, op: Op): (Flat, Answer) {
    match op
    case Modify(t, change) =>
      var given := match At(f.coins, t) case Nothing => EMPTY case Something(c) => c;
      (f.(coins := f.coins[t := change(given).Trimmed()]), Silent)
    case Read(t) => (f, Shows(At(f.coins, t)))
    case Have(t) => (f, Has(At(f.coins, t) != Nothing))
    case SetBest(hash) => (f.(best := hash), Silent)
    case AskBest => (f, BestIs(f.best))
    case Push => (f, Silent)
    case FlushTip => (f, Silent)
  }

  ghost function FlatRun(f: Flat, ops: seq<Op>): seq<Answer>
    decreases ops
  {
    if ops == [] then [] else [FlatStep(f, ops[0]).1] + FlatRun(FlatStep(f, ops[0]).0, ops[1..])
  }

  /** The same answers, except that those about the best block may differ. */
  ghost predicate SameForCoins(a: seq<Answer>, b: seq<Answer>) {
    |a| == |b| && forall i :: 0 <= i < |a| ==> a[i] == b[i] || (a[i].BestIs? && b[i].BestIs?)
  }

  lemma FlatStepAlike(a: Flat, b: Flat, op: Op)
    requires Same(a.coins, b.coins)
    ensures var ((f, x), (g, y)) := (FlatStep(a, op), FlatStep(b, op));
      && Same(f.coins, g.coins) && (a.best == b.best ==> f.best == g.best)
      && SameForCoins([x], [y]) && (a.best == b.best ==> x == y)
  {
    assert op.Modify? ==> At(a.coins, op.txid) == At(b.coins, op.txid);
    forall t ensures At(FlatStep(a, op).0.coins, t) == At(FlatStep(b, op).0.coins, t) {
      assert At(a.coins, t) == At(b.coins, t);
    }
  }

  lemma {:induction false} FlatRunAlike(a: Flat, b: Flat, ops: seq<Op>)
    requires Same(a.coins, b.coins)
    ensures SameForCoins(FlatRun(a, ops), FlatRun(b, ops))
    ensures a.best == b.best ==> FlatRun(a, ops) == FlatRun(b, ops)
    decreases ops
  {
    if ops != [] {
      hide FlatStep, Same;
      FlatStepAlike(a, b, ops[0]);
      FlatRunAlike(FlatStep(a, ops[0]).0, FlatStep(b, ops[0]).0, ops[1..]);
    }
  }

  /** What a stack shows, as a flat map. */
  ghost function Flattened(tip: CoinsViewCache): Flat
    requires tip.Stacked()
    reads tip.repr
  {
    Flat(tip.Shown(), tip.Best())
  }

  /** What a request makes of a flattened stack; `below` is what the layers below the tip show. */
  ghost predicate Performed(f: Flat, below: Store, op: Op, g: Flat) {
    match op
    case Modify(t, change) =>
      var given := if t in f.coins then f.coins[t] else EMPTY;
      && g.best == f.best
      && At(g.coins, t) == Left(change, given)
      && (forall u :: u != t ==> At(g.coins, u) == At(f.coins, u))
      && (At(below, t) != Nothing ==> t in g.coins && g.coins[t] == change(given).Trimmed())
    case SetBest(hash) => g.coins == f.coins && (hash != 0 ==> g.best == hash)
    case FlushTip => Same(g.coins, f.coins)
    case _ => g == f
  }

  /** One request to the tip of a stack, which may grow or shrink. */
  method Perform(tip: CoinsViewCache, op: Op) returns (top: CoinsViewCache, answer: Answer)
    requires tip.Valid()
    modifies tip.repr
    ensures top.Valid() && fresh(top.repr - tip.repr)
    ensures answer == FlatStep(old(Flattened(tip)), op).1
    ensures Performed(old(Flattened(tip)), old(tip.Below()), op, Flattened(top))
    ensures op.FlushTip? && old(tip.FlushKeepsBest()) ==> top.Best() == old(tip.Best())
    ensures Informs(op) ==> top.FlushKeepsBest()
    ensures op.Modify? ==> top == tip && tip.Below() == old(tip.Below())
  {
    hide Over, CacheOk;
    top, answer := tip, Silent;
    if op.Modify? {
      tip.ModifyCoins(op.txid, op.change);
    } else if op.Read? {
      var found, coins := tip.GetCoins(op.txid);
      answer := Shows(if found then CoinageOf(coins) else Nothing);
    } else if op.Have? {
      var have := tip.HaveCoins(op.txid);
      answer := Has(have);
    } else if op.SetBest? {
      tip.SetBestBlock(op.hash);
    } else if op.AskBest? {
      var hash := tip.GetBestBlock();
      answer := BestIs(hash);
    } else if op.Push? {
      top := new CoinsViewCache.OnCache(tip);
    } else {
      tip.Flush();
      if tip.base == null {
        top := new CoinsViewCache.OnDatabase(tip.db);
      } else {
        top := tip.base;
      }
    }
  }

  lemma PerformedIsFlat(f: Flat, below: Store, op: Op, g: Flat)
    requires Performed(f, below, op, g) && Respectful(op)
    requires op.Modify? && op.txid in f.coins ==> f.coins[op.txid].IsCleaned()
    ensures Same(g.coins, FlatStep(f, op).0.coins)
    ensures op.FlushTip? || (op.SetBest? && !Informs(op)) || g.best == FlatStep(f, op).0.best
    ensures op.FlushTip? ==> FlatStep(f, op).0.best == f.best
  {
    if op.Modify? {
      forall t ensures At(g.coins, t) == At(FlatStep(f, op).0.coins, t) {
        assert t != op.txid ==> At(g.coins, t) == At(f.coins, t);
      }
    }
  }

  /** A respectful request acts on the stack as on the flat map. */
  method Step(tip: CoinsViewCache, op: Op) returns (top: CoinsViewCache, answer: Answer)
    requires tip.Valid() && Respectful(op)
    modifies tip.repr
    ensures top.Valid() && fresh(top.repr - tip.repr)
    ensures answer == FlatStep(old(Flattened(tip)), op).1
    ensures Same(top.Shown(), FlatStep(old(Flattened(tip)), op).0.coins)
    ensures (op.FlushTip? ==> old(tip.FlushKeepsBest())) && (op.SetBest? ==> Informs(op)) ==>
      top.Best() == FlatStep(old(Flattened(tip)), op).0.best
    ensures Informs(op) ==> top.FlushKeepsBest()
  {
    if op.Modify? && op.txid in tip.Shown() {
      tip.ShownIsCleaned(op.txid);
    }
    ghost var f, below := Flattened(tip), tip.Below();
    hide Over, CacheOk, Performed, FlatStep, Same, Respectful;
    top, answer := Perform(tip, op);
    PerformedIsFlat(f, below, op, Flattened(top));
  }

  /**
   The whole stack refines one flat map: whatever is modified, read, pushed and flushed in whatever
   order, the answers are those of the map; those about the best block are too when the flushes are
   informed.
   */
  method Simulate(db: CoinsViewDB, ops: seq<Op>) returns (answers: seq<Answer>)
    requires StoreOk(db.coins) && forall op :: op in ops ==> Respectful(op)
    modifies db
    ensures SameForCoins(answers, FlatRun(Flat(old(db.coins), old(db.hashBlock)), ops))
    ensures Informed(ops) ==> answers == FlatRun(Flat(old(db.coins), old(db.hashBlock)), ops)
  {
    hide StoreOk, Same, Respectful, Over, CacheOk, EntryOk, FlatStep, FlatRun, SameForCoins;
    var tip := new CoinsViewCache.OnDatabase(db);
    ghost var whole := FlatRun(Flattened(tip), ops);
    assert Flattened(tip) == Flat(old(db.coins), old(db.hashBlock));
    answers := [];
    var n := 0;
    assert ops[0..] == ops;
    SameAnswers(whole);
    while n < |ops|
      invariant 0 <= n <= |ops| && tip.Valid() && fresh(tip.repr - {db})
      invariant n > 0 && Informs(ops[n - 1]) ==> tip.FlushKeepsBest()
      invariant SameForCoins(answers + FlatRun(Flattened(tip), ops[n..]), whole)
      invariant Informed(ops) ==> answers + FlatRun(Flattened(tip), ops[n..]) == whole
    {
      ghost var f := Flattened(tip);
      FlatRunStep(f, ops, n);
      assert Informed(ops) ==> InformedAt(ops, n);
      assert ops[n] in ops;
      var answer;
      tip, answer := Step(tip, ops[n]);
      ghost var f' := FlatStep(f, ops[n]).0;
      FlatRunAlike(Flattened(tip), f', ops[n + 1..]);
      OneMoreAnswer(answers, answer, FlatRun(Flattened(tip), ops[n + 1..]), FlatRun(f', ops[n + 1..]), whole);
      answers := answers + [answer];
      n := n + 1;
    }
    FlatRunEnd(Flattened(tip), ops);
    SameAnswers(answers);
  }

  lemma SameAnswers(answers: seq<Answer>)
    ensures SameForCoins(answers, answers) && [] + answers == answers + [] == answers
  {}

  lemma OneMoreAnswer(answers: seq<Answer>, answer: Answer, rest: seq<Answer>, rest': seq<Answer>, whole: seq<Answer>)
    requires SameForCoins(answers + ([answer] + rest'), whole) && SameForCoins(rest, rest')
    ensures SameForCoins(answers + [answer] + rest, whole)
    ensures answers + ([answer] + rest') == whole && rest == rest' ==> answers + [answer] + rest == whole
  {
    assert answers + [answer] + rest' == answers + ([answer] + rest');
    var a := answers + [answer];
    assert forall i :: 0 <= i < |rest| ==> (a + rest)[|a| + i] == rest[i] && (a + rest')[|a| + i] == rest'[i];
  }

  lemma FlatRunStep(f: Flat, ops: seq<Op>, n: nat)
    requires n < |ops|
    ensures FlatRun(f, ops[n..]) == [FlatStep(f, ops[n]).1] + FlatRun(FlatStep(f, ops[n]).0, ops[n + 1..])
  {
    assert ops[n..][0] == ops[n] && ops[n..][1..] == ops[n + 1..];
  }

  lemma FlatRunEnd(f: Flat, ops: seq<Op>)
    ensures FlatRun(f, ops[|ops|..]) == []
  {}

  /**
   Respectful modifications are the only ones for which that holds: with any other, there is a run on
   which the stack answers differently, over any database that has something to spend.
   */
  method Mismatch(db: CoinsViewDB, t: Txid, c: CCoins, change: CCoins -> CCoins) returns (answers: seq<Answer>)
    requires StoreOk(db.coins) && At(db.coins, t) != Nothing
    requires c.vout == [] && Left(change, c) != Left(change, EMPTY)
    modifies db
    ensures !SameForCoins(answers,
      FlatRun(Flat(old(db.coins), old(db.hashBlock)), [Modify(t, ReplaceBy(c)), Modify(t, change), Read(t)]))
  {
    hide StoreOk, Over, CacheOk, EntryOk, FlatRun, SameForCoins;
    var tip := new CoinsViewCache.OnDatabase(db);
    TrimmedKeepsOutputs(c);
    var a0, a1, a2;
    tip, a0 := Perform(tip, Modify(t, ReplaceBy(c)));
    tip, a1 := Perform(tip, Modify(t, change));
    tip, a2 := Perform(tip, Read(t));
    answers := [a0, a1, a2];
    MismatchedRun(Flat(old(db.coins), old(db.hashBlock)), t, c, change);
    LastDiffers(a0, a1, a2, Shows(Left(change, EMPTY)));
  }

  lemma LastDiffers(a0: Answer, a1: Answer, a2: Answer, answer: Answer)
    requires a2.Shows? && a2 != answer
    ensures !SameForCoins([a0, a1, a2], [Silent, Silent, answer])
  {
    assert [a0, a1, a2][2] != [Silent, Silent, answer][2];
  }

  /** What the flat map answers on that run. */
  lemma MismatchedRun(f: Flat, t: Txid, c: CCoins, change: CCoins -> CCoins)
    requires c.vout == []
    ensures FlatRun(f, [Modify(t, ReplaceBy(c)), Modify(t, change), Read(t)]) ==
      [Silent, Silent, Shows(Left(change, EMPTY))]
  {
    var ops := [Modify(t, ReplaceBy(c)), Modify(t, change), Read(t)];
    var f1 := FlatStep(f, ops[0]).0;
    var f2 := FlatStep(f1, ops[1]).0;
    assert ops[1..] == [ops[1], ops[2]] && ops[1..][1..] == [ops[2]] && [ops[2]][1..] == [];
    TrimmedKeepsOutputs(c);
    assert At(f1.coins, t) == Nothing;
    assert FlatRun(f2, [ops[2]]) == [Shows(At(f2.coins, t))] + FlatRun(f2, []);
    assert FlatRun(f1, ops[1..]) == [Silent] + FlatRun(f2, [ops[2]]);
  }

  /**
   After a flush of a cache that was not asked for the best block the base cache forgets the one that was
   set in it, and answers with the older one of the database.
   */
  method FlushForgets(db: CoinsViewDB, h: Hash) returns (tip: CoinsViewCache, before: Hash, after: Hash)
    requires StoreOk(db.coins) && h != 0 && h != db.hashBlock
    modifies db
    ensures tip.Valid() && before == h && after == old(db.hashBlock) != h
  {
    hide StoreOk, Over, CacheOk, EntryOk, Same;
    var base := new CoinsViewCache.OnDatabase(db);
    base.SetBestBlock(h);
    before := base.GetBestBlock();
    tip := new CoinsViewCache.OnCache(base);
    assert !tip.FlushKeepsBest();
    tip.Flush();
    after := base.GetBestBlock();
    tip := base;
  }
}
