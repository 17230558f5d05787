/**
The active chain: an index by height of the ancestors of its tip.
*/
module Chain {
  import opened ArithBits

  datatype Option<+T> = None | Some(value: T)

  /** A block of the index.  Its height is the number of its ancestors; the genesis block has none. */
  datatype Block = Block(hash: nat, pprev: Option<Block>)

  function Height(b: Block): nat {
    match b.pprev
    case None => 0
    case Some(p) => Height(p) + 1
  }

  /** The ancestor at height `h`, if there is one; a block is its own ancestor. */
  function GetAncestor(b: Block, h: int): Option<Block> {
    if h < 0 || h > Height(b) then None
    else if h == Height(b) then Some(b)
    else GetAncestor(b.pprev.value, h)
  }

  predicate IsAncestor(a: Block, b: Block) {
    GetAncestor(b, Height(a)) == Some(a)
  }

  lemma {:induction false} AncestorHeight(b: Block, h: nat)
    requires h <= Height(b)
    ensures GetAncestor(b, h).Some? && Height(GetAncestor(b, h).value) == h
    decreases b
  {
    if h < Height(b) {
      AncestorHeight(b.pprev.value, h);
    }
  }

  /** An ancestor of an ancestor is an ancestor. */
  lemma {:induction false} AncestorOfAncestor(b: Block, h: nat, i: nat)
    requires i <= h <= Height(b)
    ensures GetAncestor(b, h).Some? && GetAncestor(GetAncestor(b, h).value, i) == GetAncestor(b, i)
    decreases b
  {
    AncestorHeight(b, h);
    if h < Height(b) {
      AncestorOfAncestor(b.pprev.value, h, i);
    }
  }

  /** The block at each height is the tip's ancestor there. */
  ghost predicate IsChainOf(chain: seq<Option<Block>>, tip: Block) {
    |chain| == Height(tip) + 1 && forall i | 0 <= i < |chain| :: chain[i] == GetAncestor(tip, i)
  }

  ghost predicate WellFormed(chain: seq<Option<Block>>) {
    chain == [] || (chain[|chain| - 1].Some? && IsChainOf(chain, chain[|chain| - 1].value))
  }

  /** The highest block that is an ancestor both of `b` and of the chain's tip. */
  ghost predicate IsFork(chain: seq<Option<Block>>, b: Block, fork: Option<Block>) {
    match fork
    case Some(f) => Common(chain, b, f) && forall c: Block {:trigger Common(chain, b, c)} | Common(chain, b, c) :: Height(c) <= Height(f)
    case None => forall c: Block {:trigger Common(chain, b, c)} :: !Common(chain, b, c)
  }

  /** Is `c` an ancestor of `b` and part of the chain? */
  ghost predicate Common(chain: seq<Option<Block>>, b: Block, c: Block) {
    IsAncestor(c, b) && Height(c) < |chain| && chain[Height(c)] == Some(c)
  }

  /** How often a height can be halved. */
  function Log2(h: nat): nat {
    if h <= 1 then 0 else 1 + Log2(h / 2)
  }

  lemma {:induction false} Log2Bound(h: nat, k: nat)
    requires Pow2(k) <= h
    ensures k <= Log2(h)
    decreases k
  {
    if k > 0 {
      assert Pow2(k) == 2 * Pow2(k - 1);
      Log2Bound(h / 2, k - 1);
    }
  }

  //////////////////////////////////////////////////////////////////////////////
  //
  // The locator
  //
  //////////////////////////////////////////////////////////////////////////////

  /** Blocks from `b` down, each an ancestor of the one before, the last one the genesis block. */
  ghost predicate IsLocator(blocks: seq<Block>, b: Block) {
    && |blocks| > 0 && blocks[0] == b
    && (forall i | 0 <= i < |blocks| :: IsAncestor(blocks[i], b))
    && (forall i, j | 0 <= i < j < |blocks| :: Height(blocks[j]) < Height(blocks[i]))
    && Height(blocks[|blocks| - 1]) == 0
  }

  function Hashes(blocks: seq<Block>): (h: seq<nat>)
    ensures |h| == |blocks| && forall i | 0 <= i < |h| :: h[i] == blocks[i].hash
  {
    seq(|blocks|, i requires 0 <= i < |blocks| => blocks[i].hash)
  }

  /** The height reached, and the step back from there, after `n` blocks of a locator from height `h`. */
  ghost predicate Reached(h: nat, n: nat, height: int, nStep: nat) {
    if n <= 10 then nStep == 1 && height == Max0(h - n)
    else nStep == Pow2(n - 10) && height == Max0(h - 9 - nStep)
  }

  /** The first eleven blocks one after the other, then ever larger steps, each twice the one before. */
  ghost predicate HasHeights(blocks: seq<Block>, h: nat) {
    forall i | 0 <= i < |blocks| ::
      var below := if i <= 10 then i else 9 + Pow2(i - 10);
      Height(blocks[i]) == if below <= h then h - below else 0
  }

  lemma {:induction false} HeightReached(blocks: seq<Block>, h: nat, p: Block, nStep: nat)
    requires HasHeights(blocks, h) && Reached(h, |blocks|, Height(p), nStep)
    ensures HasHeights(blocks + [p], h)
  {
  }

  function Max0(x: int): nat {
    if x < 0 then 0 else x
  }

  lemma {:induction false} ReachedNext(h: nat, n: nat, height: nat, nStep: nat, nStep': nat)
    requires Reached(h, n, height, nStep) && height > 0
    requires nStep' == if n + 1 > 10 then nStep * 2 else nStep
    ensures Reached(h, n + 1, Max0(height - nStep), nStep')
  {
    if n > 10 {
      assert Pow2(n + 1 - 10) == 2 * Pow2(n - 10);
    } else if n == 10 {
      assert Pow2(1) == 2 * Pow2(0);
    }
  }

  /** As long as the genesis block is not reached, there are few blocks. */
  lemma {:induction false} ReachedFew(h: nat, n: nat, height: nat, nStep: nat)
    requires Reached(h, n, height, nStep) && height > 0
    ensures n + 1 <= 11 + Log2(h)
  {
    if n > 10 {
      Log2Bound(h, n - 10);
    }
  }

  /** `p` comes next in a locator of `b` that starts with `blocks`. */
  ghost predicate Continues(blocks: seq<Block>, b: Block, p: Block) {
    && IsAncestor(p, b) && (if blocks == [] then p == b else blocks[0] == b)
    && (forall i | 0 <= i < |blocks| :: IsAncestor(blocks[i], b) && Height(blocks[i]) > Height(p))
    && (forall i, j | 0 <= i < j < |blocks| :: Height(blocks[j]) < Height(blocks[i]))
  }

  lemma {:induction false} ContinuesNext(blocks: seq<Block>, b: Block, p: Block, q: Block)
    requires Continues(blocks, b, p) && IsAncestor(q, b) && Height(q) < Height(p)
    ensures Continues(blocks + [p], b, q)
  {
  }

  lemma {:induction false} ContinuesToGenesis(blocks: seq<Block>, b: Block, p: Block)
    requires Continues(blocks, b, p) && Height(p) == 0
    ensures IsLocator(blocks + [p], b)
  {
  }

  class CChain {
    var vChain: seq<Option<Block>>

    ghost predicate Valid()
      reads this
    {
      WellFormed(vChain)
    }

    constructor ()
      ensures Valid() && vChain == []
    {
      vChain := [];
    }

    /** The block at a height, or none if there is no such height. */
    function At(nHeight: int): Option<Block>
      reads this
    {
      if nHeight < 0 || nHeight >= |vChain| then None else vChain[nHeight]
    }

    predicate Contains(b: Block)
      reads this
    {
      At(Height(b)) == Some(b)
    }

    function Tip(): Option<Block>
      reads this
    {
      if |vChain| < 1 then None else vChain[|vChain| - 1]
    }

    /** The entries below the first that is right already are right as well, and are not visited. */
    method SetTip(pindex: Option<Block>)
      requires Valid()
      modifies this
      ensures Valid() && Tip() == pindex
      ensures match pindex
              case None => vChain == []
              case Some(b) => IsChainOf(vChain, b)
    {
      if pindex.None? {
        vChain := [];
        return;
      }
      var b := pindex.value;
      ghost var was := vChain;
      vChain := Resize(vChain, Height(b) + 1);
      var p := pindex;
      while p.Some? && vChain[Height(p.value)] != p
        invariant |vChain| == Height(b) + 1
        invariant p.Some? ==> IsAncestor(p.value, b)
        invariant var next := if p.Some? then Height(p.value) + 1 else 0;
                  next <= |vChain| && Filled(vChain, b, next) && Kept(vChain, was, next)
        decreases if p.Some? then Height(p.value) + 1 else 0
      {
        var h := Height(p.value);
        AncestorHeight(b, h);
        vChain := vChain[h := p];
        if h > 0 {
          AncestorOfAncestor(b, h, h - 1);
          AncestorHeight(p.value, h - 1);
          assert GetAncestor(p.value, h - 1) == p.value.pprev;
        }
        p := p.value.pprev;
      }
      if p.Some? {
        StopsEarly(vChain, was, b, p.value);
      }
      AncestorHeight(b, Height(b));
    }

    /** The last block of the chain that is an ancestor of `pindex`. */
    method FindFork(pindex: Block) returns (fork: Option<Block>)
      requires Valid()
      ensures IsFork(vChain, pindex, fork)
    {
      fork := Some(pindex);
      if Height(pindex) > |vChain| - 1 {
        fork := GetAncestor(pindex, |vChain| - 1);
        if |vChain| > 0 {
          AncestorHeight(pindex, |vChain| - 1);
        }
      }
      while fork.Some? && !Contains(fork.value)
        invariant fork.Some? ==> IsAncestor(fork.value, pindex)
        invariant forall c: Block {:trigger Common(vChain, pindex, c)} | Common(vChain, pindex, c) :: fork.Some? && Height(c) <= Height(fork.value)
        decreases if fork.Some? then Height(fork.value) + 1 else 0
      {
        var h := Height(fork.value);
        forall c: Block | Common(vChain, pindex, c) ensures Height(c) < h {
        }
        if h > 0 {
          AncestorOfAncestor(pindex, h, h - 1);
          AncestorHeight(fork.value, h - 1);
          assert GetAncestor(fork.value, h - 1) == fork.value.pprev;
        }
        fork := fork.value.pprev;
      }
    }

    /**
    Hashes of ancestors of `pindex`, or of the tip, in descending order down to the genesis block:
    few of them, however high the chain.
    */
    method GetLocator(pindex: Option<Block>) returns (vHave: seq<nat>, ghost blocks: seq<Block>)
      requires Valid()
      ensures vHave == Hashes(blocks)
      ensures var start := if pindex.None? then Tip() else pindex;
              if start.None? then vHave == []
              else && IsLocator(blocks, start.value) && HasHeights(blocks, Height(start.value))
                   && (Height(start.value) >= 1 ==> |vHave| <= 12 + Log2(Height(start.value)))
    {
      vHave, blocks := [], [];
      var p := if pindex.None? then Tip() else pindex;
      if p.None? {
        return;
      }
      ghost var b := p.value;
      var nStep: nat := 1;
      AncestorHeight(b, Height(b));
      while true
        invariant p.Some? && vHave == Hashes(blocks) && Continues(blocks, b, p.value) && HasHeights(blocks, Height(b))
        invariant Reached(Height(b), |blocks|, Height(p.value), nStep) && |blocks| <= 11 + Log2(Height(b))
        decreases Height(p.value)
      {
        ghost var before, nStep0, was := blocks, nStep, p.value;
        HeightReached(blocks, Height(b), was, nStep);
        vHave := vHave + [p.value.hash];
        blocks := blocks + [p.value];
        if Height(p.value) == 0 {
          ContinuesToGenesis(before, b, was);
          break;
        }
        var nHeight := Max0(Height(p.value) - nStep);
        ReachedFew(Height(b), |before|, Height(was), nStep);
        p := if Contains(p.value) then At(nHeight) else GetAncestor(p.value, nHeight);
        StepBack(was, b, nHeight, p);
        ContinuesNext(before, b, was, p.value);
        if |vHave| > 10 {
          nStep := nStep * 2;
        }
        ReachedNext(Height(b), |before|, Height(was), nStep0, nStep);
      }
    }

    lemma {:induction false} StepBack(p: Block, b: Block, h: nat, q: Option<Block>)
      requires Valid() && IsAncestor(p, b) && h < Height(p) && q == if Contains(p) then At(h) else GetAncestor(p, h)
      ensures q.Some? && Height(q.value) == h && IsAncestor(q.value, b)
    {
      AncestorHeight(p, h);
      AncestorOfAncestor(b, Height(p), h);
      if Contains(p) {
        AncestorOfAncestor(Tip().value, Height(p), h);
      }
    }
  }

  /** A vector of another size; new entries are null. */
  function Resize(chain: seq<Option<Block>>, n: nat): (r: seq<Option<Block>>)
    ensures |r| == n && forall i | 0 <= i < n :: r[i] == if i < |chain| then chain[i] else None
  {
    seq(n, i requires 0 <= i => if i < |chain| then chain[i] else None)
  }

  /** From height `h` on, the chain is that of `b`. */
  ghost predicate Filled(chain: seq<Option<Block>>, b: Block, h: nat) {
    forall i | h <= i < |chain| :: chain[i] == GetAncestor(b, i)
  }

  /** Below height `h`, the chain is as it was. */
  ghost predicate Kept(chain: seq<Option<Block>>, was: seq<Option<Block>>, h: nat) {
    forall i | 0 <= i < h && i < |chain| :: chain[i] == if i < |was| then was[i] else None
  }

  /** An entry that was right means that all below it are. */
  lemma {:induction false} StopsEarly(chain: seq<Option<Block>>, was: seq<Option<Block>>, b: Block, p: Block)
    requires WellFormed(was) && |chain| == Height(b) + 1 && IsAncestor(p, b) && Height(p) < |chain| && chain[Height(p)] == Some(p)
    requires Filled(chain, b, Height(p) + 1) && Kept(chain, was, Height(p) + 1)
    ensures IsChainOf(chain, b)
  {
    var tip := was[|was| - 1].value;
    forall i | 0 <= i < |chain| ensures chain[i] == GetAncestor(b, i) {
      if i <= Height(p) {
        AncestorOfAncestor(tip, Height(p), i);
        AncestorOfAncestor(b, Height(p), i);
      }
    }
  }
}
