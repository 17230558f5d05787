/**
A stack of coins caches over a store, as a value: what each layer shows, what reading, modifying
and flushing do to the stack, and why the stack always shows what plain maps would.
*/
module CoinsViews {

  datatype Option<+T> = None | Some(value: T)

  type TxId = nat
  type Hash = nat  // 0 is the null hash

  const NULL_VALUE := -1

  datatype TxOut = TxOut(nValue: int, scriptPubKey: seq<nat>) {
    predicate IsNull() { nValue == NULL_VALUE }
  }

  datatype Coins = Coins(fCoinBase: bool, fCoinStake: bool, vout: seq<TxOut>, nHeight: int, nVersion: int) {

    /** Is every output spent? */
    predicate IsPruned() {
      forall i | 0 <= i < |vout| :: vout[i].IsNull()
    }

    /** Spent outputs at the end have been removed. */
    predicate IsClean() {
      vout != [] ==> !vout[|vout| - 1].IsNull()
    }

    /** Remove spent outputs at the end. */
    function Cleanup(): (c: Coins)
      ensures c.IsClean() && c.IsPruned() == IsPruned()
      ensures c.vout <= vout && forall i | |c.vout| <= i < |vout| :: vout[i].IsNull()
      decreases |vout|
    {
      if vout != [] && vout[|vout| - 1].IsNull() then this.(vout := vout[..|vout| - 1]).Cleanup() else this
    }
  }

  const NoCoins := Coins(false, false, [], 0, 0)

  datatype Entry = Entry(coins: Coins, dirty: bool, isFresh: bool)

  /** A store, or a cache with its best block (0 if not set) over another view. */
  datatype View =
    | Store(coins: map<TxId, Coins>, best: Hash)
    | Cache(entries: map<TxId, Entry>, hashBlock: Hash, base: View)

  //////////////////////////////////////////////////////////////////////////////
  //
  // Reading
  //
  //////////////////////////////////////////////////////////////////////////////

  /** What GetCoins hands out. */
  function Lookup(v: View, tx: TxId): Option<Coins> {
    match v
    case Store(coins, _) => if tx in coins then Some(coins[tx]) else None
    case Cache(entries, _, base) => if tx in entries then Some(entries[tx].coins) else Lookup(base, tx)
  }

  /** Pruned coins count as absent. */
  function Live(c: Coins): Option<Coins> {
    if c.IsPruned() then None else Some(c)
  }

  /** What the view shows for `tx`. */
  function See(v: View, tx: TxId): Option<Coins> {
    var r := Lookup(v, tx);
    if r.Some? then Live(r.value) else None
  }

  /** The cache entry made for coins read from below; pruned ones are as good as not there. */
  function Fetched(c: Coins): Entry {
    Entry(c, false, c.IsPruned())
  }

  /** The stack after FetchCoins: every layer passed on the way now holds the coins found. */
  function Fetch(v: View, tx: TxId): View {
    match v
    case Store(_, _) => v
    case Cache(entries, hashBlock, base) =>
      if tx in entries then v
      else
        var found := Lookup(base, tx);
        Cache(if found.Some? then entries[tx := Fetched(found.value)] else entries, hashBlock, Fetch(base, tx))
  }

  /** HaveCoins looks at whether there are outputs, not at whether they are spent. */
  predicate Have(v: View, tx: TxId) {
    match v
    case Store(coins, _) => tx in coins
    case Cache(_, _, _) => var r := Lookup(v, tx); r.Some? && r.value.vout != []
  }

  //////////////////////////////////////////////////////////////////////////////
  //
  // Modifying and flushing
  //
  //////////////////////////////////////////////////////////////////////////////

  /** The stack after ModifyCoins: the top layer holds a dirty entry, ready to be changed. */
  function BeginModify(v: View, tx: TxId): View
    requires v.Cache?
  {
    if tx in v.entries then
      v.(entries := v.entries[tx := v.entries[tx].(dirty := true)])
    else
      var found := Lookup(v.base, tx);
      var e := if found.None? then Entry(NoCoins, true, true) else Fetched(found.value).(dirty := true);
      Cache(v.entries[tx := e], v.hashBlock, Fetch(v.base, tx))
  }

  /** The modifier is released with `c` in its entry; a fresh entry left pruned is dropped. */
  function EndModify(v: View, tx: TxId, c: Coins): View
    requires v.Cache? && tx in v.entries
  {
    var e := v.entries[tx].(coins := c.Cleanup());
    v.(entries := if e.isFresh && e.coins.IsPruned() then v.entries - {tx} else v.entries[tx := e])
  }

  function Modify(v: View, tx: TxId, c: Coins): View
    requires v.Cache?
  {
    EndModify(BeginModify(v, tx), tx, c)
  }

  /** What a parent cache holds for an id after its child wrote entry `e` (if any) to it. */
  function Merge(ours: Option<Entry>, e: Entry): Option<Entry> {
    if !e.dirty then ours
    else if ours.None? then
      if e.coins.IsPruned() then None else Some(Entry(e.coins, true, true))
    else if ours.value.isFresh && e.coins.IsPruned() then None
    else Some(Entry(e.coins, true, ours.value.isFresh))
  }

  function Find<T>(m: map<TxId, T>, tx: TxId): Option<T> {
    if tx in m then Some(m[tx]) else None
  }

  function MergeAll(ours: map<TxId, Entry>, theirs: map<TxId, Entry>): map<TxId, Entry> {
    map tx | tx in ours.Keys + theirs.Keys &&
             (if tx in theirs then Merge(Find(ours, tx), theirs[tx]) else Find(ours, tx)).Some? ::
      (if tx in theirs then Merge(Find(ours, tx), theirs[tx]) else Find(ours, tx)).value
  }

  function WriteAll(coins: map<TxId, Coins>, theirs: map<TxId, Entry>): map<TxId, Coins> {
    map tx | tx in coins.Keys + theirs.Keys &&
             (if tx in theirs && theirs[tx].dirty then !theirs[tx].coins.IsPruned() else tx in coins) ::
      if tx in theirs && theirs[tx].dirty then theirs[tx].coins else coins[tx]
  }

  lemma {:induction false} MergeAllAt(ours: map<TxId, Entry>, theirs: map<TxId, Entry>, tx: TxId)
    ensures Find(MergeAll(ours, theirs), tx) == if tx in theirs then Merge(Find(ours, tx), theirs[tx]) else Find(ours, tx)
  {
  }

  lemma {:induction false} WriteAllAt(coins: map<TxId, Coins>, theirs: map<TxId, Entry>, tx: TxId)
    ensures Find(WriteAll(coins, theirs), tx) ==
            if tx in theirs && theirs[tx].dirty then Live(theirs[tx].coins) else Find(coins, tx)
  {
  }

  lemma {:induction false} SameMaps<T>(m: map<TxId, T>, n: map<TxId, T>)
    requires forall tx :: Find(m, tx) == Find(n, tx)
    ensures m == n
  {
    forall tx ensures tx in m <==> tx in n {
      assert Find(m, tx) == Find(n, tx);
    }
    forall tx | tx in m ensures m[tx] == n[tx] {
      assert Find(m, tx) == Find(n, tx);
    }
  }

  function BatchWrite(v: View, theirs: map<TxId, Entry>, hashBlock: Hash): View {
    match v
    case Store(coins, best) => Store(WriteAll(coins, theirs), if hashBlock != 0 then hashBlock else best)
    case Cache(entries, _, base) => Cache(MergeAll(entries, theirs), hashBlock, base)
  }

  function Flush(v: View): View
    requires v.Cache?
  {
    Cache(map[], v.hashBlock, BatchWrite(v.base, v.entries, v.hashBlock))
  }

  //////////////////////////////////////////////////////////////////////////////
  //
  // The invariant of a stack
  //
  //////////////////////////////////////////////////////////////////////////////

  /**
  The flags of an entry tell the truth about the view below: FRESH exactly if it shows nothing
  there; not DIRTY, it shows the same there.  And unless FRESH, a cache below has an entry too: the coins
  came through it.
  */
  ghost predicate Truthful(e: Entry, tx: TxId, base: View) {
    && (e.isFresh <==> See(base, tx) == None)
    && (!e.dirty ==> Live(e.coins) == See(base, tx))
    && (!e.isFresh && base.Cache? ==> tx in base.entries)
  }

  ghost predicate Inv(v: View) {
    match v
    case Store(_, _) => true
    case Cache(entries, _, base) => Inv(base) && forall tx | tx in entries :: Truthful(entries[tx], tx, base)
  }

  /** Every layer holds cleaned coins only, and the store only coins with something unspent. */
  ghost predicate Clean(v: View) {
    match v
    case Store(coins, _) => forall tx | tx in coins :: coins[tx].IsClean() && !coins[tx].IsPruned()
    case Cache(entries, _, base) => Clean(base) && forall tx | tx in entries :: entries[tx].coins.IsClean()
  }

  /** Two views no reader can tell apart, but for pruned coins. */
  ghost predicate Alike(v: View, w: View) {
    forall tx :: See(v, tx) == See(w, tx)
  }

  //////////////////////////////////////////////////////////////////////////////
  //
  // What each operation keeps
  //
  //////////////////////////////////////////////////////////////////////////////

  /** `w` is `v` after coins have been read: caches without an entry for them have one, in which nothing is to be written. */
  ghost predicate ReadThrough(v: View, w: View, tx: TxId) {
    match v
    case Store(_, _) => w == v
    case Cache(entries, hashBlock, base) =>
      && w.Cache? && w.hashBlock == hashBlock
      && if tx in entries then w == v
         else
           && ReadThrough(base, w.base, tx)
           && match Lookup(base, tx)
              case None => w.entries == entries
              case Some(c) => w.entries == entries[tx := Entry(c, false, c.IsPruned())]
  }

  /** Reading fills the caches and changes nothing else: every lookup gives what it gave before. */
  lemma {:induction false} FetchKeeps(v: View, tx: TxId)
    requires Inv(v)
    ensures ReadThrough(v, Fetch(v, tx), tx)
    ensures Inv(Fetch(v, tx)) && (Clean(v) ==> Clean(Fetch(v, tx)))
    ensures forall t :: Lookup(Fetch(v, tx), t) == Lookup(v, t)
    ensures v.Cache? ==> Fetch(v, tx).Cache? && v.entries.Keys <= Fetch(v, tx).entries.Keys
    ensures v.Cache? && Lookup(v, tx).Some? ==> tx in Fetch(v, tx).entries
  {
    match v
    case Store(_, _) =>
    case Cache(entries, hashBlock, base) =>
      if tx !in entries {
        FetchKeeps(base, tx);
        LookupClean(base, tx);
        var w := Fetch(v, tx);
        forall t | t in w.entries ensures Truthful(w.entries[t], t, w.base) {
          assert Lookup(w.base, t) == Lookup(base, t);
          if t != tx {
            assert Truthful(entries[t], t, base);
          }
        }
        forall t ensures Lookup(w, t) == Lookup(v, t) {
          assert Lookup(w.base, t) == Lookup(base, t);
        }
      }
  }

  lemma {:induction false} LookupClean(v: View, tx: TxId)
    ensures Clean(v) && Lookup(v, tx).Some? ==> Lookup(v, tx).value.IsClean()
  {
    if v.Cache? {
      LookupClean(v.base, tx);
    }
  }

  lemma {:induction false} BeginModifyTruthful(v: View, tx: TxId)
    requires Inv(v) && v.Cache?
    ensures var w := BeginModify(v, tx); forall t | t in w.entries :: Truthful(w.entries[t], t, w.base)
  {
    FetchKeeps(v.base, tx);
    var w := BeginModify(v, tx);
    forall t | t in w.entries ensures Truthful(w.entries[t], t, w.base) {
      assert Lookup(w.base, t) == Lookup(v.base, t);
      if t in v.entries {
        assert Truthful(v.entries[t], t, v.base);
      }
    }
  }

  /** The opened entry is dirty and holds the coins found, or none; the other entries are as they were. */
  lemma {:induction false} BeginModifyOpens(v: View, tx: TxId)
    requires v.Cache?
    ensures var w := BeginModify(v, tx);
            && w.Cache? && w.entries - {tx} == v.entries - {tx} && w.hashBlock == v.hashBlock
            && tx in w.entries && w.entries[tx].dirty
            && w.entries[tx].coins == if Lookup(v, tx).Some? then Lookup(v, tx).value else Coins(false, false, [], 0, 0)
  {
  }

  lemma {:induction false} BeginModifyKeeps(v: View, tx: TxId)
    requires Inv(v) && v.Cache?
    ensures var w := BeginModify(v, tx);
            && Inv(w) && (Clean(v) ==> Clean(w)) && Alike(v, w) && Alike(v.base, w.base)
            && tx in w.entries && w.entries[tx].dirty
            && (w.entries[tx].isFresh <==> See(w.base, tx) == None)
  {
    FetchKeeps(v.base, tx);
    LookupClean(v.base, tx);
    var w := BeginModify(v, tx);
    BeginModifyTruthful(v, tx);
    forall t ensures See(w, t) == See(v, t) && See(w.base, t) == See(v.base, t) {
      assert Lookup(w.base, t) == Lookup(v.base, t);
    }
  }

  /** A completed modification changes what is shown for its own id, to the cleaned coins, and nothing else. */
  lemma {:induction false} ModifyKeeps(v: View, tx: TxId, c: Coins)
    requires Inv(v) && v.Cache?
    ensures var w := Modify(v, tx, c);
            && Inv(w) && (Clean(v) ==> Clean(w)) && Alike(v.base, w.base)
            && See(w, tx) == Live(c.Cleanup())
            && forall t | t != tx :: See(w, t) == See(v, t)
  {
    BeginModifyKeeps(v, tx);
    var u, w := BeginModify(v, tx), Modify(v, tx, c);
    assert Truthful(u.entries[tx], tx, u.base);
    forall t | t in w.entries ensures Truthful(w.entries[t], t, w.base) {
      assert Truthful(u.entries[t], t, u.base);
    }
    forall t ensures See(w.base, t) == See(v.base, t) && (t != tx ==> See(w, t) == See(v, t)) {
      assert See(u, t) == See(v, t) && See(u.base, t) == See(v.base, t);
    }
  }

  /** The cache then has a dirty entry with them, unless they are pruned and nothing is shown for the id below. */
  lemma {:induction false} ModifyLeaves(v: View, tx: TxId, c: Coins)
    requires Inv(v) && v.Cache?
    ensures var w := Modify(v, tx, c);
            && w.entries - {tx} == v.entries - {tx} && w.hashBlock == v.hashBlock
            && Find(w.entries, tx) ==
                 if c.IsPruned() && See(v.base, tx) == None then None else Some(Entry(c.Cleanup(), true, See(v.base, tx) == None))
  {
    BeginModifyKeeps(v, tx);
    BeginModifyOpens(v, tx);
    var u := BeginModify(v, tx);
    assert Truthful(u.entries[tx], tx, u.base);
    assert See(u.base, tx) == See(v.base, tx);
  }

  /** The assertion inside BatchWrite: live coins for an id the parent does not hold are FRESH. */
  ghost predicate Writable(ours: map<TxId, Entry>, theirs: map<TxId, Entry>) {
    forall tx | tx in theirs && tx !in ours && theirs[tx].dirty && !theirs[tx].coins.IsPruned() :: theirs[tx].isFresh
  }

  /**
  Flushing the top layer never trips the assertion, keeps the invariant at every layer, and makes
  the view below show exactly what the top showed, which goes on showing the same.
  */
  lemma {:induction false} FlushKeeps(v: View)
    requires Inv(v) && v.Cache?
    ensures v.base.Cache? ==> Writable(v.base.entries, v.entries)
    ensures Inv(Flush(v)) && (Clean(v) ==> Clean(Flush(v)))
    ensures Alike(Flush(v).base, v) && Alike(Flush(v), v)
  {
    forall tx | tx in v.entries ensures Truthful(v.entries[tx], tx, v.base) {}
    if v.base.Cache? {
      FlushIntoCache(v);
    } else {
      FlushIntoStore(v);
    }
  }

  /**
  What a flush leaves at the view below: as it was where nothing is to be written, and else no
  entry, for pruned coins of which none was needed, or a dirty one; a new entry is fresh.
  */
  lemma {:induction false} FlushWrites(v: View, tx: TxId)
    requires v.Cache?
    ensures Flush(v).entries == map[] && Flush(v).hashBlock == v.hashBlock
    ensures var w, writes := Flush(v).base, tx in v.entries && v.entries[tx].dirty;
            match v.base
            case Store(coins, best) =>
              && w.Store? && w.best == (if v.hashBlock != 0 then v.hashBlock else best)
              && Find(w.coins, tx) == if writes then Live(v.entries[tx].coins) else Find(coins, tx)
            case Cache(entries, _, base) =>
              && w.Cache? && w.base == base && w.hashBlock == v.hashBlock
              && if !writes then Find(w.entries, tx) == Find(entries, tx)
                 else
                   var c, started := v.entries[tx].coins, tx !in entries || entries[tx].isFresh;
                   Find(w.entries, tx) == if started && c.IsPruned() then None else Some(Entry(c, true, started))
  {
    match v.base
    case Store(coins, _) => WriteAllAt(coins, v.entries, tx);
    case Cache(entries, _, _) => MergeAllAt(entries, v.entries, tx);
  }

  lemma {:induction false} FlushIntoStore(v: View)
    requires Inv(v) && v.Cache? && v.base.Store?
    ensures Inv(Flush(v)) && (Clean(v) ==> Clean(Flush(v)))
    ensures Alike(Flush(v).base, v) && Alike(Flush(v), v)
  {
    var p, w := v.base, Flush(v);
    forall tx ensures See(w.base, tx) == See(v, tx) {
      assert tx in v.entries ==> Truthful(v.entries[tx], tx, p);
      assert Lookup(v, tx) == if tx in v.entries then Some(v.entries[tx].coins) else Lookup(p, tx);
      assert Lookup(w, tx) == Lookup(w.base, tx);
    }
    assert Clean(v) ==> Clean(p) && Clean(w.base);
  }

  lemma {:induction false} FlushIntoCache(v: View)
    requires Inv(v) && v.Cache? && v.base.Cache?
    ensures Inv(Flush(v)) && (Clean(v) ==> Clean(Flush(v)))
    ensures Alike(Flush(v).base, v) && Alike(Flush(v), v)
  {
    var p, w := v.base, Flush(v);
    forall tx ensures See(w.base, tx) == See(v, tx) && (tx in w.base.entries ==> Truthful(w.base.entries[tx], tx, p.base)) {
      FlushIntoCacheAt(v, tx);
      assert Lookup(w, tx) == Lookup(w.base, tx);
    }
    assert Clean(v) ==> Clean(p) && Clean(p.base) && Clean(w.base);
  }

  lemma {:induction false} FlushIntoCacheAt(v: View, tx: TxId)
    requires Inv(v) && v.Cache? && v.base.Cache?
    ensures See(Flush(v).base, tx) == See(v, tx)
    ensures tx in Flush(v).base.entries ==> Truthful(Flush(v).base.entries[tx], tx, v.base.base)
  {
    var p, w := v.base, Flush(v).base;
    assert tx in p.entries ==> Truthful(p.entries[tx], tx, p.base);
    assert tx in v.entries ==> Truthful(v.entries[tx], tx, p);
    assert Lookup(v, tx) == if tx in v.entries then Some(v.entries[tx].coins) else Lookup(p, tx);
    assert Lookup(p, tx) == if tx in p.entries then Some(p.entries[tx].coins) else Lookup(p.base, tx);
    assert Lookup(w, tx) == if tx in w.entries then Some(w.entries[tx].coins) else Lookup(p.base, tx);
  }
}
