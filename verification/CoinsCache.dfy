/**
The coins cache and the coins database as objects.  A cache works on a database or on another
cache, which is used through it only; each method has exactly the effect CoinsViews gives it on
the stack of views below and including the object.
*/
module CoinsCache {
  import opened CoinsViews
  import CoinsRuns

  /** Remove spent outputs at the end, one after the other. */
  method CleanupCoins(c: Coins) returns (r: Coins)
    ensures r == c.Cleanup()
  {
    var vout := c.vout;
    while |vout| > 0 && vout[|vout| - 1].IsNull()
      invariant c.(vout := vout).Cleanup() == c.Cleanup()
    {
      vout := vout[..|vout| - 1];
    }
    r := c.(vout := vout);
  }

  /** Is every output spent? */
  method IsPruned(c: Coins) returns (r: bool)
    ensures r == c.IsPruned()
  {
    for i := 0 to |c.vout|
      invariant forall j | 0 <= j < i :: c.vout[j].IsNull()
    {
      if !c.vout[i].IsNull() {
        return false;
      }
    }
    return true;
  }

  /** Of the entries `all`, those in `todo` are still to be consumed. */
  ghost predicate Consuming(all: map<TxId, Entry>, done: set<TxId>, todo: map<TxId, Entry>) {
    && done !! todo.Keys && done + todo.Keys == all.Keys
    && forall tx | tx in todo :: todo[tx] == all[tx]
  }

  lemma {:induction false} ConsumeOne(all: map<TxId, Entry>, done: set<TxId>, todo: map<TxId, Entry>, tx: TxId)
    requires Consuming(all, done, todo) && tx in todo
    ensures Consuming(all, done + {tx}, todo - {tx}) && tx !in done && tx in all && todo[tx] == all[tx]
  {
  }

  /** What is in the batch once the entries in `done` have been consumed. */
  ghost predicate Written(coins: map<TxId, Coins>, all: map<TxId, Entry>, done: set<TxId>, batch: map<TxId, Coins>)
    requires done <= all.Keys
  {
    forall tx :: Find(batch, tx) == if tx in done && all[tx].dirty then Live(all[tx].coins) else Find(coins, tx)
  }

  lemma {:induction false} WriteOne(coins: map<TxId, Coins>, all: map<TxId, Entry>, done: set<TxId>, tx: TxId,
                                    batch: map<TxId, Coins>, batch': map<TxId, Coins>)
    requires done <= all.Keys && tx in all && tx !in done && Written(coins, all, done, batch)
    requires Find(batch', tx) == if all[tx].dirty then Live(all[tx].coins) else Find(batch, tx)
    requires forall t | t != tx :: Find(batch', t) == Find(batch, t)
    ensures Written(coins, all, done + {tx}, batch')
  {
  }

  lemma {:induction false} AllWritten(coins: map<TxId, Coins>, all: map<TxId, Entry>, batch: map<TxId, Coins>)
    requires Written(coins, all, all.Keys, batch)
    ensures batch == WriteAll(coins, all)
  {
    forall tx ensures Find(batch, tx) == Find(WriteAll(coins, all), tx) {
      WriteAllAt(coins, all, tx);
    }
    SameMaps(batch, WriteAll(coins, all));
  }

  /** A dirty entry becomes a write, or an erasure if its coins are pruned. */
  method WriteCoins(batch: map<TxId, Coins>, txid: TxId, e: Entry) returns (batch': map<TxId, Coins>)
    ensures Find(batch', txid) == if e.dirty then Live(e.coins) else Find(batch, txid)
    ensures forall tx | tx != txid :: Find(batch', tx) == Find(batch, tx)
  {
    batch' := batch;
    if e.dirty {
      var fPruned := IsPruned(e.coins);
      batch' := if fPruned then batch - {txid} else batch[txid := e.coins];
    }
  }

  /** Collect the dirty entries among `mapCoins`, in no particular order, as writes and erasures. */
  method WriteBatch(coins: map<TxId, Coins>, mapCoins: map<TxId, Entry>) returns (batch: map<TxId, Coins>)
    ensures batch == WriteAll(coins, mapCoins)
  {
    batch := coins;
    ghost var done: set<TxId> := {};
    var todo := mapCoins;
    while todo != map[]
      invariant Consuming(mapCoins, done, todo) && Written(coins, mapCoins, done, batch)
      decreases |todo|
    {
      var tx :| tx in todo;
      ConsumeOne(mapCoins, done, todo, tx);
      ghost var before := batch;
      batch := WriteCoins(batch, tx, todo[tx]);
      WriteOne(coins, mapCoins, done, tx, before, batch);
      todo := todo - {tx};
      done := done + {tx};
    }
    AllWritten(coins, mapCoins, batch);
  }

  /** What a cache holds that held `ours` once the entries in `done` have been merged into it. */
  ghost predicate Merged(ours: map<TxId, Entry>, all: map<TxId, Entry>, done: set<TxId>, now: map<TxId, Entry>)
    requires done <= all.Keys
  {
    forall tx :: Find(now, tx) == if tx in done then Merge(Find(ours, tx), all[tx]) else Find(ours, tx)
  }

  lemma {:induction false} MergeOne(ours: map<TxId, Entry>, all: map<TxId, Entry>, done: set<TxId>, tx: TxId,
                                    now: map<TxId, Entry>, now': map<TxId, Entry>)
    requires done <= all.Keys && tx in all && tx !in done && Merged(ours, all, done, now)
    requires Find(now', tx) == Merge(Find(now, tx), all[tx]) && forall t | t != tx :: Find(now', t) == Find(now, t)
    ensures Merged(ours, all, done + {tx}, now')
  {
  }

  lemma {:induction false} AllMerged(ours: map<TxId, Entry>, all: map<TxId, Entry>, now: map<TxId, Entry>)
    requires Merged(ours, all, all.Keys, now)
    ensures now == MergeAll(ours, all)
  {
    forall tx ensures Find(now, tx) == Find(MergeAll(ours, all), tx) {
      MergeAllAt(ours, all, tx);
    }
    SameMaps(now, MergeAll(ours, all));
  }

  class CCoinsViewDB {
    var coins: map<TxId, Coins>
    var hashBest: Hash

    constructor (coins: map<TxId, Coins>, hashBest: Hash)
      ensures V() == Store(coins, hashBest)
    {
      this.coins := coins;
      this.hashBest := hashBest;
    }

    ghost function V(): View
      reads this
    {
      Store(coins, hashBest)
    }

    method BatchWrite(mapCoins: map<TxId, Entry>, hashBlock: Hash)
      modifies this
      ensures V() == CoinsViews.BatchWrite(old(V()), mapCoins, hashBlock)
    {
      var batch := WriteBatch(coins, mapCoins);
      coins := batch;
      if hashBlock != 0 {
        hashBest := hashBlock;
      }
    }
  }

  /** A database or a cache, as something to read from and to write to. */
  datatype Backend = Database(db: CCoinsViewDB) | Parent(cache: CCoinsViewCache)

  class CCoinsViewCache {
    const base: Backend
    var cacheCoins: map<TxId, Entry>
    var hashBlock: Hash
    var hasModifier: bool
    ghost const Repr: set<object>

    ghost predicate Valid()
      decreases Repr
    {
      && this in Repr
      && match base
         case Database(db) => db in Repr && db as object != this
         case Parent(cache) => cache in Repr && cache.Repr < Repr && this !in cache.Repr && cache.Valid()
    }

    /** The stack of views below this cache. */
    ghost function BaseV(): View
      requires Valid()
      reads Repr - {this}
      decreases Repr, 0
    {
      match base
      case Database(db) => db.V()
      case Parent(cache) => cache.V()
    }

    /** The stack of views from this cache down. */
    ghost function V(): View
      requires Valid()
      reads Repr
      decreases Repr, 1
    {
      Cache(cacheCoins, hashBlock, BaseV())
    }

    /** No modifier is open below this cache. */
    ghost predicate BaseQuiet()
      requires Valid()
      reads Repr - {this}
      decreases Repr, 0
    {
      base.Parent? ==> base.cache.Quiet()
    }

    /** No modifier is open on this cache or below. */
    ghost predicate Quiet()
      requires Valid()
      reads Repr
      decreases Repr, 1
    {
      !hasModifier && BaseQuiet()
    }

    constructor OnDatabase(db: CCoinsViewDB)
      ensures Valid() && base == Database(db) && Repr == {this, db}
      ensures V() == Cache(map[], 0, db.V()) && Quiet()
    {
      base := Database(db);
      cacheCoins, hashBlock, hasModifier := map[], 0, false;
      Repr := {this, db};
    }

    constructor OnCache(cache: CCoinsViewCache)
      requires cache.Valid() && cache.Quiet()
      ensures Valid() && base == Parent(cache) && Repr == {this} + cache.Repr
      ensures V() == Cache(map[], 0, cache.V()) && Quiet()
    {
      base := Parent(cache);
      cacheCoins, hashBlock, hasModifier := map[], 0, false;
      Repr := {this} + cache.Repr;
    }

    method BaseGetCoins(txid: TxId) returns (coins: Option<Coins>)
      requires Valid()
      modifies Repr - {this}
      ensures coins == Lookup(old(BaseV()), txid)
      ensures BaseV() == Fetch(old(BaseV()), txid)
      ensures old(BaseQuiet()) ==> BaseQuiet()
      decreases Repr, 0
    {
      match base
      case Database(db) =>
        coins := if txid in db.coins then Some(db.coins[txid]) else None;
      case Parent(cache) =>
        coins := cache.GetCoins(txid);
    }

    /** Make sure the cache holds the coins of `txid` if there are any below. */
    method FetchCoins(txid: TxId) returns (found: bool)
      requires Valid()
      modifies Repr
      ensures V() == Fetch(old(V()), txid)
      ensures found <==> txid in cacheCoins
      ensures found <==> Lookup(old(V()), txid).Some?
      ensures found ==> cacheCoins[txid].coins == Lookup(old(V()), txid).value
      ensures old(Quiet()) ==> Quiet()
      decreases Repr, 1
    {
      if txid in cacheCoins {
        return true;
      }
      var tmp := BaseGetCoins(txid);
      if tmp.None? {
        return false;
      }
      var fPruned := IsPruned(tmp.value);
      cacheCoins := cacheCoins[txid := Entry(tmp.value, false, fPruned)];
      return true;
    }

    method GetCoins(txid: TxId) returns (coins: Option<Coins>)
      requires Valid()
      modifies Repr
      ensures coins == Lookup(old(V()), txid)
      ensures V() == Fetch(old(V()), txid)
      ensures old(Quiet()) ==> Quiet()
      decreases Repr, 2
    {
      var found := FetchCoins(txid);
      coins := if found then Some(cacheCoins[txid].coins) else None;
    }

    method HaveCoins(txid: TxId) returns (have: bool)
      requires Valid()
      modifies Repr
      ensures have == Have(old(V()), txid)
      ensures V() == Fetch(old(V()), txid)
      ensures old(Quiet()) ==> Quiet()
    {
      var found := FetchCoins(txid);
      have := found && cacheCoins[txid].coins.vout != [];
    }

    /** What the base has for `txid`; nothing, or nothing unspent, makes a fresh entry. */
    method EntryFromBase(txid: TxId) returns (e: Entry)
      requires Valid()
      modifies Repr - {this}
      ensures BaseV() == Fetch(old(BaseV()), txid) && (old(BaseQuiet()) ==> BaseQuiet())
      ensures var found := Lookup(old(BaseV()), txid);
              e == if found.None? then Entry(NoCoins, false, true) else Fetched(found.value)
    {
      var coins := BaseGetCoins(txid);
      if coins.None? {
        e := Entry(NoCoins, false, true);
      } else {
        var fPruned := IsPruned(coins.value);
        e := Entry(coins.value, false, fPruned);
      }
    }

    /** Open a modifier: the caller may change the coins of `txid` until it releases the modifier. */
    method ModifyCoins(txid: TxId)
      requires Valid() && Quiet()
      modifies Repr
      ensures V() == BeginModify(old(V()), txid) && hasModifier
      ensures txid in cacheCoins
      ensures BaseQuiet()
    {
      assert !hasModifier;
      if txid !in cacheCoins {
        cacheCoins := cacheCoins[txid := Entry(NoCoins, false, false)];
        var e := EntryFromBase(txid);
        cacheCoins := cacheCoins[txid := e];
      }
      cacheCoins := cacheCoins[txid := cacheCoins[txid].(dirty := true)];
      hasModifier := true;
    }

    /** The modifier goes out of scope, having left `coins` in its entry. */
    method ReleaseModifier(txid: TxId, coins: Coins)
      requires Valid() && hasModifier && txid in cacheCoins
      requires BaseQuiet()
      modifies this
      ensures V() == EndModify(old(V()), txid, coins) && Quiet()
    {
      assert hasModifier;
      hasModifier := false;
      var cleaned := CleanupCoins(coins);
      cacheCoins := cacheCoins[txid := cacheCoins[txid].(coins := cleaned)];
      var fPruned := IsPruned(cleaned);
      if cacheCoins[txid].isFresh && fPruned {
        cacheCoins := cacheCoins - {txid};
      }
    }

    /** Take over the dirty entries of a child; they are consumed in no particular order. */
    method BatchWrite(mapCoins: map<TxId, Entry>, hashBlockIn: Hash)
      requires Valid() && Quiet() && Writable(cacheCoins, mapCoins)
      modifies this
      ensures V() == CoinsViews.BatchWrite(old(V()), mapCoins, hashBlockIn) && Quiet()
    {
      assert !hasModifier;
      WriteEntries(mapCoins);
      hashBlock := hashBlockIn;
    }

    /** Take over the dirty entries among `mapCoins`. */
    method WriteEntries(mapCoins: map<TxId, Entry>)
      requires Writable(cacheCoins, mapCoins)
      modifies this`cacheCoins
      ensures cacheCoins == MergeAll(old(cacheCoins), mapCoins)
    {
      ghost var ours := cacheCoins;
      ghost var done: set<TxId> := {};
      var todo := mapCoins;
      while todo != map[]
        invariant Consuming(mapCoins, done, todo) && Merged(ours, mapCoins, done, cacheCoins)
        decreases |todo|
      {
        var tx :| tx in todo;
        ConsumeOne(mapCoins, done, todo, tx);
        ghost var before := cacheCoins;
        assert Find(before, tx) == Find(ours, tx);
        if todo[tx].dirty {
          WriteEntry(tx, todo[tx]);
        }
        MergeOne(ours, mapCoins, done, tx, before, cacheCoins);
        todo := todo - {tx};
        done := done + {tx};
      }
      AllMerged(ours, mapCoins, cacheCoins);
    }

    /** Take over one dirty entry of a child. */
    method WriteEntry(txid: TxId, theirs: Entry)
      requires theirs.dirty
      requires txid !in cacheCoins && !theirs.coins.IsPruned() ==> theirs.isFresh
      modifies this`cacheCoins
      ensures Find(cacheCoins, txid) == Merge(Find(old(cacheCoins), txid), theirs)
      ensures forall tx | tx != txid :: Find(cacheCoins, tx) == Find(old(cacheCoins), tx)
    {
      var fPruned := IsPruned(theirs.coins);
      if txid !in cacheCoins {
        if !fPruned {
          // Writable: what is not held here can only be new.
          assert theirs.isFresh;
          cacheCoins := cacheCoins[txid := Entry(theirs.coins, true, true)];
        }
      } else if cacheCoins[txid].isFresh && fPruned {
        cacheCoins := cacheCoins - {txid};
      } else {
        cacheCoins := cacheCoins[txid := cacheCoins[txid].(coins := theirs.coins, dirty := true)];
      }
    }

    /** Push everything changed here to the base. */
    method Flush()
      requires Valid() && Quiet() && Inv(V())
      modifies Repr
      ensures V() == CoinsViews.Flush(old(V())) && Quiet()
      ensures Inv(V()) && Alike(V(), old(V())) && Alike(V().base, old(V()))
    {
      FlushKeeps(V());
      BaseBatchWrite();
      cacheCoins := map[];
    }

    method BaseBatchWrite()
      requires Valid() && BaseQuiet() && (BaseV().Cache? ==> Writable(BaseV().entries, cacheCoins))
      modifies Repr - {this}
      ensures BaseV() == CoinsViews.BatchWrite(old(BaseV()), cacheCoins, hashBlock) && BaseQuiet()
    {
      match base
      case Database(db) =>
        assert BaseV() == db.V();
        db.BatchWrite(cacheCoins, hashBlock);
      case Parent(cache) =>
        assert BaseV() == cache.V();
        cache.BatchWrite(cacheCoins, hashBlock);
    }

    method GetBestBlock() returns (hash: Hash)
      requires Valid()
      modifies Repr
      ensures hash == CoinsRuns.Best(old(V())) && V() == CoinsRuns.AskBest(old(V()))
      ensures old(Quiet()) ==> Quiet()
      decreases Repr, 1
    {
      if hashBlock == 0 {
        var h := BaseGetBestBlock();
        hashBlock := h;
      }
      hash := hashBlock;
    }

    method BaseGetBestBlock() returns (hash: Hash)
      requires Valid()
      modifies Repr - {this}
      ensures hash == CoinsRuns.Best(old(BaseV())) && BaseV() == CoinsRuns.AskBest(old(BaseV()))
      ensures old(BaseQuiet()) ==> BaseQuiet()
      decreases Repr, 0
    {
      match base
      case Database(db) => hash := db.hashBest;
      case Parent(cache) => hash := cache.GetBestBlock();
    }

    method SetBestBlock(hashBlockIn: Hash)
      requires Valid()
      modifies this
      ensures V() == Cache(old(V()).entries, hashBlockIn, old(V()).base)
      ensures old(Quiet()) ==> Quiet()
    {
      hashBlock := hashBlockIn;
    }
  }
}
