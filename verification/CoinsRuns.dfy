/**
Whole runs on a stack of coins caches: however reads, modifications, flushes, new layers and
discarded layers are mixed, the stack answers like a stack of plain maps.
*/
module CoinsRuns {
  import opened CoinsViews

  datatype Op =
    | Read(tx: TxId)              // GetCoins, AccessCoins or HaveCoins on the top cache
    | Change(tx: TxId, c: Coins)  // a completed ModifyCoins on the top cache
    | FlushTop
    | Push                        // a new cache on top of the stack
    | Pop                         // drop the top cache with everything it was not flushed of

  /** The live coins found for an id, and whether HaveCoins reports it. */
  datatype Answer = Answer(coins: Option<Coins>, have: bool)

  predicate Enabled(v: View, op: Op) {
    v.Cache? && (op.Pop? ==> v.base.Cache?)
  }

  function Step(v: View, op: Op): View
    requires Enabled(v, op)
  {
    match op
    case Read(tx) => Fetch(v, tx)
    case Change(tx, c) => Modify(v, tx, c)
    case FlushTop => Flush(v)
    case Push => Cache(map[], 0, v)
    case Pop => v.base
  }

  function Run(v: View, ops: seq<Op>): (r: (View, seq<Answer>))
    requires v.Cache?
    ensures r.0.Cache?
    decreases |ops|
  {
    if ops == [] then (v, [])
    else if !Enabled(v, ops[0]) then Run(v, ops[1..])
    else
      var (w, answers) := Run(Step(v, ops[0]), ops[1..]);
      (w, if ops[0].Read? then [Answer(See(v, ops[0].tx), Have(v, ops[0].tx))] + answers else answers)
  }

  //////////////////////////////////////////////////////////////////////////////
  //
  // The reference: plain maps of live coins, one for each layer, the store first
  //
  //////////////////////////////////////////////////////////////////////////////

  type Plain = map<TxId, Coins>

  function PlainStep(ms: seq<Plain>, op: Op): seq<Plain>
    requires |ms| >= 2 && (op.Pop? ==> |ms| >= 3)
  {
    var n := |ms| - 1;
    match op
    case Read(_) => ms
    case Change(tx, c) => ms[n := if c.IsPruned() then ms[n] - {tx} else ms[n][tx := c.Cleanup()]]
    case FlushTop => ms[n - 1 := ms[n]]
    case Push => ms + [ms[n]]
    case Pop => ms[..n]
  }

  function PlainRun(ms: seq<Plain>, ops: seq<Op>): (seq<Plain>, seq<Answer>)
    requires |ms| >= 2
    decreases |ops|
  {
    if ops == [] then (ms, [])
    else if ops[0].Pop? && |ms| < 3 then PlainRun(ms, ops[1..])
    else
      var (ns, answers) := PlainRun(PlainStep(ms, ops[0]), ops[1..]);
      var top := ms[|ms| - 1];
      (ns, if ops[0].Read? then [Answer(Find(top, ops[0].tx), ops[0].tx in top)] + answers else answers)
  }

  /** Each layer shows exactly what its plain map holds. */
  ghost predicate Refines(v: View, ms: seq<Plain>) {
    && |ms| > 0
    && (forall tx :: See(v, tx) == Find(ms[|ms| - 1], tx))
    && match v
       case Store(_, _) => |ms| == 1
       case Cache(_, _, base) => Refines(base, ms[..|ms| - 1])
  }

  lemma {:induction false} RefinesDepth(v: View, ms: seq<Plain>)
    requires Refines(v, ms)
    ensures v.Cache? <==> |ms| >= 2
    ensures v.Cache? && v.base.Cache? <==> |ms| >= 3
  {
    if v.Cache? && v.base.Cache? {
      assert Refines(v.base, ms[..|ms| - 1]);
      assert Refines(v.base.base, ms[..|ms| - 1][..|ms| - 2]);
    }
  }

  /** Reading at any layer leaves every layer showing its map. */
  lemma {:induction false} FetchRefines(v: View, tx: TxId, ms: seq<Plain>)
    requires Inv(v) && Refines(v, ms)
    ensures Refines(Fetch(v, tx), ms)
  {
    FetchKeeps(v, tx);
    forall t ensures See(Fetch(v, tx), t) == Find(ms[|ms| - 1], t) {
      assert Lookup(Fetch(v, tx), t) == Lookup(v, t) && See(v, t) == Find(ms[|ms| - 1], t);
    }
    if v.Cache? {
      FetchRefines(v.base, tx, ms[..|ms| - 1]);
    }
  }

  lemma {:induction false} ChangeRefines(v: View, tx: TxId, c: Coins, ms: seq<Plain>)
    requires Inv(v) && v.Cache? && Refines(v, ms) && |ms| >= 2
    ensures Refines(Modify(v, tx, c), PlainStep(ms, Change(tx, c)))
  {
    ModifyKeeps(v, tx, c);
    FetchRefines(v.base, tx, ms[..|ms| - 1]);
    var w, ns := Modify(v, tx, c), PlainStep(ms, Change(tx, c));
    forall t ensures See(w, t) == Find(ns[|ns| - 1], t) {
      assert See(v, t) == Find(ms[|ms| - 1], t);
    }
    assert ns[..|ns| - 1] == ms[..|ms| - 1];
  }

  lemma {:induction false} FlushRefines(v: View, ms: seq<Plain>)
    requires Inv(v) && v.Cache? && Refines(v, ms) && |ms| >= 2
    ensures Refines(Flush(v), PlainStep(ms, FlushTop))
  {
    FlushKeeps(v);
    var w, ns, n := Flush(v), PlainStep(ms, FlushTop), |ms| - 1;
    forall tx ensures See(w, tx) == Find(ns[n], tx) && See(w.base, tx) == Find(ns[n - 1], tx) {
      assert See(v, tx) == Find(ms[n], tx) && See(w, tx) == See(v, tx) && See(w.base, tx) == See(v, tx);
    }
    assert ns[..n][..n - 1] == ms[..n][..n - 1];
    assert Refines(v.base, ms[..n]);
    assert ns[..n][|ns[..n]| - 1] == ns[n - 1];
    assert Refines(w.base, ns[..n]);
  }

  lemma {:induction false} StepRefines(v: View, op: Op, ms: seq<Plain>)
    requires Inv(v) && Clean(v) && Enabled(v, op) && Refines(v, ms)
    ensures |ms| >= 2 && (op.Pop? ==> |ms| >= 3)
    ensures var w := Step(v, op); Inv(w) && Clean(w) && w.Cache? && Refines(w, PlainStep(ms, op))
  {
    RefinesDepth(v, ms);
    match op
    case Read(tx) =>
      FetchKeeps(v, tx);
      FetchRefines(v, tx, ms);
    case Change(tx, c) =>
      ModifyKeeps(v, tx, c);
      ChangeRefines(v, tx, c, ms);
    case FlushTop =>
      FlushKeeps(v);
      FlushRefines(v, ms);
    case Push =>
      var w, n := Step(v, Push), |ms| - 1;
      assert (ms + [ms[n]])[..n + 1] == ms;
      assert forall tx :: See(w, tx) == See(v, tx);
    case Pop =>
  }

  /** HaveCoins, which only asks whether there are outputs, agrees with "not pruned" where coins are clean. */
  lemma {:induction false} HaveMeansLive(v: View, tx: TxId)
    requires Clean(v) && v.Cache?
    ensures Have(v, tx) <==> See(v, tx).Some?
  {
    LookupClean(v, tx);
    var r := Lookup(v, tx);
    if r.Some? && r.value.vout != [] {
      assert !r.value.vout[|r.value.vout| - 1].IsNull();
    }
  }

  /**
  A stack of caches refines a stack of plain maps: in every run every read is answered, live
  coins and HaveCoins alike, as the plain map of the top layer answers it, every layer keeps
  showing its map, and no flag ever lies.
  */
  lemma {:induction false} RunRefines(v: View, ops: seq<Op>, ms: seq<Plain>)
    requires Inv(v) && Clean(v) && v.Cache? && Refines(v, ms)
    ensures |ms| >= 2
    ensures Run(v, ops).1 == PlainRun(ms, ops).1
    ensures Refines(Run(v, ops).0, PlainRun(ms, ops).0)
    ensures Inv(Run(v, ops).0) && Clean(Run(v, ops).0)
    decreases |ops|
  {
    RefinesDepth(v, ms);
    if ops != [] {
      if Enabled(v, ops[0]) {
        StepRefines(v, ops[0], ms);
        if ops[0].Read? {
          HaveMeansLive(v, ops[0].tx);
          assert See(v, ops[0].tx) == Find(ms[|ms| - 1], ops[0].tx);
        }
        RunRefines(Step(v, ops[0]), ops[1..], PlainStep(ms, ops[0]));
      } else {
        RunRefines(v, ops[1..], ms);
      }
    }
  }

  /** The case the stack starts from: one empty cache over a store of cleaned, unpruned coins. */
  lemma {:induction false} RunFromStore(coins: Plain, best: Hash, ops: seq<Op>)
    requires Clean(Store(coins, best))
    ensures Run(Cache(map[], 0, Store(coins, best)), ops).1 == PlainRun([coins, coins], ops).1
    ensures Inv(Run(Cache(map[], 0, Store(coins, best)), ops).0)
    ensures Refines(Run(Cache(map[], 0, Store(coins, best)), ops).0, PlainRun([coins, coins], ops).0)
  {
    var v, ms := Cache(map[], 0, Store(coins, best)), [coins, coins];
    assert ms[..1] == [coins];
    assert Refines(v.base, ms[..1]);
    assert forall tx :: See(v, tx) == See(v.base, tx);
    RunRefines(v, ops, ms);
  }

  //////////////////////////////////////////////////////////////////////////////
  //
  // The best block
  //
  //////////////////////////////////////////////////////////////////////////////

  /** What GetBestBlock returns. */
  function Best(v: View): Hash {
    match v
    case Store(_, best) => best
    case Cache(_, hashBlock, base) => if hashBlock != 0 then hashBlock else Best(base)
  }

  /** The stack after GetBestBlock: caches on the way remember what they were told. */
  function AskBest(v: View): View {
    match v
    case Store(_, _) => v
    case Cache(entries, hashBlock, base) => if hashBlock != 0 then v else Cache(entries, Best(base), AskBest(base))
  }

  /** `w` is `v` with the best block filled in where it was not set, down to where it is. */
  ghost predicate BestFilledIn(v: View, w: View) {
    match v
    case Store(_, _) => w == v
    case Cache(entries, hashBlock, base) =>
      if hashBlock != 0 then w == v
      else w.Cache? && w.entries == entries && w.hashBlock == Best(w) == Best(w.base) == Best(base) && BestFilledIn(base, w.base)
  }

  /** Asking for the best block fills it in and changes neither any lookup nor the answer. */
  lemma {:induction false} AskBestKeeps(v: View)
    requires Inv(v)
    ensures BestFilledIn(v, AskBest(v))
    ensures Inv(AskBest(v)) && Best(AskBest(v)) == Best(v)
    ensures forall tx :: Lookup(AskBest(v), tx) == Lookup(v, tx)
    ensures v.Cache? ==> AskBest(v).Cache? && AskBest(v).entries == v.entries
  {
    if v.Cache? && v.hashBlock == 0 {
      AskBestKeeps(v.base);
      var w := AskBest(v);
      forall tx ensures Lookup(w, tx) == Lookup(v, tx) && (tx in w.entries ==> Truthful(w.entries[tx], tx, w.base)) {
        assert Lookup(w.base, tx) == Lookup(v.base, tx);
        assert tx in v.entries ==> Truthful(v.entries[tx], tx, v.base);
      }
    }
  }

  /**
  Flush hands its best block on exactly when it has one, or writes to the store, or the parent's
  best block is not set or is that below it: a cache that was never told its best block clears its
  parent's.
  */
  lemma {:induction false} FlushBest(v: View)
    requires v.Cache?
    ensures Best(Flush(v).base) == Best(v) <==>
            v.hashBlock != 0 || v.base.Store? || v.base.hashBlock == 0 || v.base.hashBlock == Best(v.base.base)
  {
  }

  /** A child that was never asked for its best block, flushed into a parent that has one. */
  lemma {:induction false} FlushBestLost()
    ensures var v := Cache(map[], 0, Cache(map[], 7, Store(map[], 3)));
            Best(v) == 7 && Best(Flush(v).base) == 3
  {
    assert Best(Store(map[], 3)) == 3;
  }
}
