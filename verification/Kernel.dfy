/**
Choosing the blocks whose entropy bits make up a stake modifier.
*/
module Kernel {
  import opened ArithBits
  import opened ArithSteps

  const MODIFIER_INTERVAL := 60
  const MODIFIER_INTERVAL_RATIO := 3

  /** What the block index knows of a block. */
  datatype BlockInfo = BlockInfo(nTime: int, hash: nat, nHeight: nat, fProofOfStake: bool)

  /** A candidate: its time and its hash. */
  datatype Candidate = Candidate(nTime: int, hash: nat)

  /** The index, the height from which hashes are made of block hashes only, and the hash function. */
  datatype Context = Context(mapBlockIndex: map<nat, BlockInfo>, nUpgradeHeight: nat, hash: (nat, nat) -> nat)

  /** The bit a block contributes: the lowest of its hash. */
  function EntropyBit(b: BlockInfo): (bit: nat)
    ensures bit <= 1
  {
    b.hash % 2
  }

  /** All candidates are indexed under their own hash and time, and they are sorted by time. */
  ghost predicate Indexed(ctx: Context, cands: seq<Candidate>) {
    && (forall i | 0 <= i < |cands| ::
          && cands[i].hash in ctx.mapBlockIndex && Info(ctx, cands[i]).hash == cands[i].hash
          && Info(ctx, cands[i]).nTime == cands[i].nTime)
    && (forall i, j | 0 <= i < j < |cands| :: cands[i].nTime <= cands[j].nTime && cands[i].hash != cands[j].hash)
  }

  function Info(ctx: Context, c: Candidate): BlockInfo
    requires c.hash in ctx.mapBlockIndex
  {
    ctx.mapBlockIndex[c.hash]
  }

  /** The number that is smallest for the block to select; those of proof-of-stake blocks are divided by 2^32. */
  function SelectionHash(ctx: Context, b: BlockInfo, fModifierV2: bool, nStakeModifierPrev: nat): nat {
    var hashProof := if fModifierV2 then b.hash else if b.fProofOfStake then 0 else b.hash;
    var h := ctx.hash(hashProof, nStakeModifierPrev);
    if b.fProofOfStake then h / 0x1_0000_0000 else h
  }

  /** The height of the first candidate decides how hashes are made. */
  function ModifierV2(ctx: Context, cands: seq<Candidate>): bool {
    cands != [] && cands[0].hash in ctx.mapBlockIndex && Info(ctx, cands[0]).nHeight >= ctx.nUpgradeHeight
  }

  function HashOf(ctx: Context, cands: seq<Candidate>, prev: nat, i: nat): nat
    requires i < |cands| && cands[i].hash in ctx.mapBlockIndex
  {
    SelectionHash(ctx, Info(ctx, cands[i]), ModifierV2(ctx, cands), prev)
  }

  /** Is candidate `i` up for selection in a round until `stop`? */
  predicate InTime(cands: seq<Candidate>, selected: set<nat>, stop: int, i: nat)
    requires i < |cands|
  {
    cands[i].hash !in selected && cands[i].nTime <= stop
  }

  /**
  Candidate `k` is the one to select: of those in time and not selected before, the first with
  the smallest hash; if there is none, the first of the later ones.
  */
  ghost predicate Selects(ctx: Context, cands: seq<Candidate>, selected: set<nat>, stop: int, prev: nat, k: nat)
    requires Indexed(ctx, cands)
  {
    && k < |cands| && cands[k].hash !in selected
    && if cands[k].nTime <= stop then
         forall i | 0 <= i < |cands| && InTime(cands, selected, stop, i) ::
           HashOf(ctx, cands, prev, k) <= HashOf(ctx, cands, prev, i)
           && (HashOf(ctx, cands, prev, i) == HashOf(ctx, cands, prev, k) ==> k <= i)
       else
         forall i | 0 <= i < k :: cands[i].hash in selected
  }

  method SelectBlockFromCandidates(ctx: Context, vSortedByTimestamp: seq<Candidate>, mapSelectedBlocks: set<nat>,
                                   nSelectionIntervalStop: int, nStakeModifierPrev: nat)
      returns (fSelected: bool, selected: nat)
    requires Indexed(ctx, vSortedByTimestamp)
    ensures fSelected <==> exists i :: 0 <= i < |vSortedByTimestamp| && vSortedByTimestamp[i].hash !in mapSelectedBlocks
    ensures fSelected ==> Selects(ctx, vSortedByTimestamp, mapSelectedBlocks, nSelectionIntervalStop, nStakeModifierPrev, selected)
  {
    var fModifierV2, fFirstRun := false, true;
    var hashBest := 0;
    fSelected, selected := false, 0;
    for i := 0 to |vSortedByTimestamp|
      invariant fFirstRun <==> i == 0
      invariant !fFirstRun ==> fModifierV2 == ModifierV2(ctx, vSortedByTimestamp)
      invariant Scanned(ctx, vSortedByTimestamp, mapSelectedBlocks, nSelectionIntervalStop, nStakeModifierPrev, i, fSelected, selected, hashBest)
    {
      var item := vSortedByTimestamp[i];
      var b := ctx.mapBlockIndex[item.hash];
      if fSelected && b.nTime > nSelectionIntervalStop {
        ScannedEnough(ctx, vSortedByTimestamp, mapSelectedBlocks, nSelectionIntervalStop, nStakeModifierPrev, i, selected, hashBest);
        return;
      }
      if fFirstRun {
        fModifierV2 := b.nHeight >= ctx.nUpgradeHeight;
        fFirstRun := false;
      }
      if b.hash in mapSelectedBlocks {
        continue;
      }
      var hashSelection := SelectionHash(ctx, b, fModifierV2, nStakeModifierPrev);
      if fSelected && hashSelection < hashBest {
        hashBest := hashSelection;
        selected := i;
      } else if !fSelected {
        fSelected := true;
        hashBest := hashSelection;
        selected := i;
      }
    }
  }

  /** Of the first `n` candidates, `k` is the one to select, and `best` is its hash. */
  ghost predicate Scanned(ctx: Context, cands: seq<Candidate>, selected: set<nat>, stop: int, prev: nat, n: nat,
                          found: bool, k: nat, best: nat)
    requires Indexed(ctx, cands) && n <= |cands|
  {
    if !found then forall i | 0 <= i < n :: cands[i].hash in selected
    else
      && k < n && cands[k].hash !in selected && best == HashOf(ctx, cands, prev, k)
      && (cands[k].nTime > stop ==> forall i | 0 <= i < k :: cands[i].hash in selected)
      && (cands[k].nTime > stop ==> n == k + 1)
      && forall i | 0 <= i < n && cands[i].hash !in selected ::
           best <= HashOf(ctx, cands, prev, i) && (HashOf(ctx, cands, prev, i) == best ==> k <= i)
  }

  /** What comes after a candidate that is too late is too late as well. */
  lemma {:induction false} ScannedEnough(ctx: Context, cands: seq<Candidate>, selected: set<nat>, stop: int, prev: nat, n: nat, k: nat, best: nat)
    requires Indexed(ctx, cands) && n < |cands| && cands[n].nTime > stop
    requires Scanned(ctx, cands, selected, stop, prev, n, true, k, best)
    ensures Selects(ctx, cands, selected, stop, prev, k)
  {
  }

  //////////////////////////////////////////////////////////////////////////////
  //
  // Proof-of-stake blocks are favoured
  //
  //////////////////////////////////////////////////////////////////////////////

  /**
  The number by which candidates are compared: the hash of the block's own hash and the previous
  modifier, divided by 2^32 for a proof-of-stake block; before the upgrade, of 0 in place of its hash.
  */
  lemma {:induction false} HashOfIs(ctx: Context, cands: seq<Candidate>, prev: nat, i: nat)
    requires Indexed(ctx, cands) && i < |cands|
    ensures var b := ctx.mapBlockIndex[cands[i].hash];
            var upgraded := ctx.mapBlockIndex[cands[0].hash].nHeight >= ctx.nUpgradeHeight;
            HashOf(ctx, cands, prev, i) ==
              if !b.fProofOfStake then ctx.hash(b.hash, prev)
              else ctx.hash(if upgraded then b.hash else 0, prev) / 0x1_0000_0000
  {
  }

  ghost predicate Hashes256(ctx: Context) {
    forall x, y :: ctx.hash(x, y) < 0x1_0000_0000 * Pow2(224)
  }

  lemma {:induction false} StakeBelow(x: nat, y: nat)
    requires x < 0x1_0000_0000 * y
    ensures x / 0x1_0000_0000 < y
  {
  }

  /**
  If any candidate in time is a proof-of-stake block, one is selected, unless a proof-of-work block
  has a hash below 2^224.
  */
  lemma {:induction false} StakeFavoured(ctx: Context, cands: seq<Candidate>, selected: set<nat>, stop: int, prev: nat, i: nat, k: nat)
    requires Indexed(ctx, cands) && Hashes256(ctx) && Selects(ctx, cands, selected, stop, prev, k)
    requires i < |cands| && cands[i].hash !in selected && cands[i].nTime <= stop && Info(ctx, cands[i]).fProofOfStake
    ensures Info(ctx, cands[k]).fProofOfStake || ctx.hash(cands[k].hash, prev) < Pow2(224)
  {
    HashOfIs(ctx, cands, prev, i);
    HashOfIs(ctx, cands, prev, k);
    var upgraded := ctx.mapBlockIndex[cands[0].hash].nHeight >= ctx.nUpgradeHeight;
    StakeBelow(ctx.hash(if upgraded then cands[i].hash else 0, prev), Pow2(224));
  }

  /** Is candidate `i` preferred to candidate `j`, the one a proof-of-stake and the other a proof-of-work block? */
  ghost predicate Outbids(ctx: Context, cands: seq<Candidate>, prev: nat, i: nat, j: nat)
    requires Indexed(ctx, cands) && i < |cands| && j < |cands|
  {
    var upgraded := ctx.mapBlockIndex[cands[0].hash].nHeight >= ctx.nUpgradeHeight;
    var stake := ctx.hash(if upgraded then cands[i].hash else 0, prev) / 0x1_0000_0000;
    var work := ctx.hash(cands[j].hash, prev);
    stake < work || (stake == work && i < j)
  }

  /** Candidate `i` is a proof-of-stake block in time that is preferred to every proof-of-work block in time. */
  ghost predicate OutbidsAll(ctx: Context, cands: seq<Candidate>, selected: set<nat>, stop: int, prev: nat, i: nat)
    requires Indexed(ctx, cands) && i < |cands|
  {
    && InTime(cands, selected, stop, i) && Info(ctx, cands[i]).fProofOfStake
    && forall j | 0 <= j < |cands| && InTime(cands, selected, stop, j) && !Info(ctx, cands[j]).fProofOfStake ::
         Outbids(ctx, cands, prev, i, j)
  }

  /** Exactly when a candidate selected in time is a proof-of-stake block. */
  lemma {:induction false} StakeSelected(ctx: Context, cands: seq<Candidate>, selected: set<nat>, stop: int, prev: nat, k: nat)
    requires Indexed(ctx, cands) && Selects(ctx, cands, selected, stop, prev, k) && cands[k].nTime <= stop
    ensures Info(ctx, cands[k]).fProofOfStake <==> exists i :: 0 <= i < |cands| && OutbidsAll(ctx, cands, selected, stop, prev, i)
  {
    HashOfIs(ctx, cands, prev, k);
    if Info(ctx, cands[k]).fProofOfStake {
      forall j | 0 <= j < |cands| && InTime(cands, selected, stop, j) && !Info(ctx, cands[j]).fProofOfStake
        ensures Outbids(ctx, cands, prev, k, j)
      {
        HashOfIs(ctx, cands, prev, j);
      }
      assert OutbidsAll(ctx, cands, selected, stop, prev, k);
    } else {
      forall i | 0 <= i < |cands| ensures !OutbidsAll(ctx, cands, selected, stop, prev, i) {
        HashOfIs(ctx, cands, prev, i);
      }
    }
  }

  /** A proof-of-work block with hash 0, selected before a proof-of-stake block. */
  lemma {:induction false} WorkSelected()
    ensures var ctx := Context(map[1 := BlockInfo(0, 1, 0, false), 2 := BlockInfo(0, 2, 0, true)], 0,
                               (x: nat, y: nat) => if x == 1 then 0 else 0x1_0000_0000);
            var cands := [Candidate(0, 1), Candidate(0, 2)];
            Indexed(ctx, cands) && Selects(ctx, cands, {}, 0, 0, 0)
  {
  }

  /**
  Before the upgrade the hashes of all proof-of-stake blocks are one number: a proof-of-stake block
  that is selected in time is simply the earliest.
  */
  lemma {:induction false} EarliestStake(ctx: Context, cands: seq<Candidate>, selected: set<nat>, stop: int, prev: nat, i: nat, k: nat)
    requires Indexed(ctx, cands) && Selects(ctx, cands, selected, stop, prev, k) && i < |cands|
    requires ctx.mapBlockIndex[cands[0].hash].nHeight < ctx.nUpgradeHeight
    requires Info(ctx, cands[k]).fProofOfStake && cands[k].nTime <= stop
    requires Info(ctx, cands[i]).fProofOfStake && cands[i].hash !in selected && cands[i].nTime <= stop
    ensures k <= i
  {
    HashOfIs(ctx, cands, prev, i);
    HashOfIs(ctx, cands, prev, k);
    assert InTime(cands, selected, stop, i);
  }

  //////////////////////////////////////////////////////////////////////////////
  //
  // The rounds
  //
  //////////////////////////////////////////////////////////////////////////////

  /** The section of the selection interval that a round adds. */
  function IntervalSection(nSection: nat): (a: nat)
    requires nSection < 64
  {
    MODIFIER_INTERVAL * 63 / (63 + (63 - nSection) * (MODIFIER_INTERVAL_RATIO - 1))
  }

  /** Sections grow from a third of the interval to all of it. */
  lemma {:induction false} SectionsGrow(i: nat, j: nat)
    requires i <= j < 64
    ensures 20 == IntervalSection(0) <= IntervalSection(i) <= IntervalSection(j) <= IntervalSection(63) == 60
    ensures IntervalSection(i) * (189 - 2 * i) <= 3780 < (IntervalSection(i) + 1) * (189 - 2 * i)
  {
    var n := MODIFIER_INTERVAL * 63;
    QuotientOrder(n, 189, 189 - 2 * i);
    QuotientOrder(n, 189 - 2 * i, 189 - 2 * j);
    QuotientOrder(n, 189 - 2 * j, 63);
  }

  lemma {:induction false} QuotientOrder(n: nat, c: nat, d: nat)
    requires 0 < d <= c
    ensures n / c <= n / d
  {
    var p, q := n / c, n / d;
    assert n == p * c + n % c && n == q * d + n % d;
    if q + 1 <= p {
      ProductOrder(q + 1, p, d);
      ProductOrder(d, c, p);
    }
  }

  lemma {:induction false} ProductOrder(x: nat, y: nat, z: nat)
    requires x <= y
    ensures x * z <= y * z
    decreases y - x
  {
    if x < y {
      ProductOrder(x, y - 1, z);
    }
  }

  /** Until when candidates are considered in round `r`. */
  function StopTime(start: int, r: nat): int
    requires r < 64
    decreases r, start
  {
    (if r == 0 then start else StopTime(start, r - 1)) + IntervalSection(r)
  }

  /** Each round considers candidates of another section after those of the one before. */
  lemma {:induction false} StopTimes(start: int, r: nat)
    requires r < 64
    ensures StopTime(start, r) == (if r == 0 then start else StopTime(start, r - 1)) + IntervalSection(r)
    ensures start + 20 * (r + 1) <= StopTime(start, r) <= start + 60 * (r + 1)
    decreases r
  {
    SectionsGrow(r, r);
    if r > 0 {
      StopTimes(start, r - 1);
    }
  }

  /** A bit moved up by `n` places. */
  function Shifted(bit: nat, n: nat): nat {
    UpSign(bit, n);
    Up(bit, n)
  }

  /** The hashes of the blocks selected in the first `r` rounds. */
  ghost function SelectedIn(cands: seq<Candidate>, picks: seq<nat>, r: nat): set<nat>
    requires r <= |picks| && forall i | 0 <= i < |picks| :: picks[i] < |cands|
  {
    set i | 0 <= i < r :: cands[picks[i]].hash
  }

  /** Round by round, `picks` are the candidates to select. */
  ghost predicate RoundsSelect(ctx: Context, cands: seq<Candidate>, start: int, prev: nat, picks: seq<nat>)
    requires Indexed(ctx, cands)
  {
    && |picks| <= 64 && (forall r | 0 <= r < |picks| :: picks[r] < |cands|)
    && forall r | 0 <= r < |picks| :: Selects(ctx, cands, SelectedIn(cands, picks, r), StopTime(start, r), prev, picks[r])
  }

  /** The modifier has the bits of the blocks selected, in the order of the rounds. */
  ghost predicate HasBits(ctx: Context, cands: seq<Candidate>, picks: seq<nat>, modifier: nat)
    requires Indexed(ctx, cands) && forall r | 0 <= r < |picks| :: picks[r] < |cands|
  {
    && modifier < Pow2(|picks|)
    && forall r | 0 <= r < |picks| :: Bit(modifier, r) <==> Info(ctx, cands[picks[r]]).hash % 2 == 1
  }

  /** A block that has been selected is not selected again. */
  lemma {:induction false} PicksDiffer(ctx: Context, cands: seq<Candidate>, start: int, prev: nat, picks: seq<nat>)
    requires Indexed(ctx, cands) && RoundsSelect(ctx, cands, start, prev, picks)
    ensures forall i, j | 0 <= i < j < |picks| :: picks[i] != picks[j]
  {
    forall i, j | 0 <= i < j < |picks| ensures picks[i] != picks[j] {
      assert cands[picks[i]].hash in SelectedIn(cands, picks, j);
      assert Selects(ctx, cands, SelectedIn(cands, picks, j), StopTime(start, j), prev, picks[j]);
    }
  }

  /** As long as there are more candidates than rounds, one is left to select. */
  lemma {:induction false} SomeLeft(ctx: Context, cands: seq<Candidate>, picks: seq<nat>)
    requires Indexed(ctx, cands) && |picks| < |cands| && forall r | 0 <= r < |picks| :: picks[r] < |cands|
    ensures exists i :: 0 <= i < |cands| && cands[i].hash !in SelectedIn(cands, picks, |picks|)
  {
    var picked := set r | 0 <= r < |picks| :: picks[r];
    PickedSize(picks, |picks|);
    var i := Unpicked(picked, |cands|);
    if cands[i].hash in SelectedIn(cands, picks, |picks|) {
      var r :| 0 <= r < |picks| && cands[picks[r]].hash == cands[i].hash;
      HashesDiffer(ctx, cands, picks[r], i);
    }
  }

  lemma {:induction false} HashesDiffer(ctx: Context, cands: seq<Candidate>, i: nat, j: nat)
    requires Indexed(ctx, cands) && i < |cands| && j < |cands| && cands[i].hash == cands[j].hash
    ensures i == j
  {
  }

  lemma {:induction false} PickedSize(picks: seq<nat>, k: nat)
    requires k <= |picks|
    ensures |set r | 0 <= r < k :: picks[r]| <= k
    decreases k
  {
    var s := set r | 0 <= r < k :: picks[r];
    if k == 0 {
      assert s == {};
    } else {
      PickedSize(picks, k - 1);
      assert s == (set r | 0 <= r < k - 1 :: picks[r]) + {picks[k - 1]};
    }
  }

  /** Fewer than `n` numbers leave out one below `n`. */
  lemma {:induction false} Unpicked(s: set<nat>, n: nat) returns (i: nat)
    requires |s| < n
    ensures i < n && i !in s
    decreases n
  {
    if n - 1 !in s {
      i := n - 1;
    } else {
      i := Unpicked(s - {n - 1}, n - 1);
    }
  }

  /** A bit above all others changes none of them. */
  lemma {:induction false} BitOver(x: nat, bit: nat, n: nat)
    requires x < Pow2(n) && bit <= 1
    ensures var y := Or(x, Shifted(bit, n));
            && y < Pow2(n + 1) && (Bit(y, n) <==> bit == 1)
            && forall r | 0 <= r < n :: Bit(y, r) <==> Bit(x, r)
  {
    UpSign(bit, n);
    SplitUnique(bit, 0, n);
    OrDisjoint(Up(bit, n), x, n);
    SplitUnique(bit, x, n);
    assert Pow2(n + 1) == 2 * Pow2(n);
    forall r | 0 <= r < n ensures Bit(Or(x, Shifted(bit, n)), r) <==> Bit(x, r) {
      BitBelow(x, bit, n, r);
    }
  }

  lemma {:induction false} BitBelow(x: nat, bit: nat, n: nat, r: nat)
    requires r < n && Up(bit, n) >= 0
    ensures Bit(x + Up(bit, n), r) <==> Bit(x, r)
    decreases r
  {
    UpSign(bit, n - 1);
    if r > 0 {
      BitBelow(x / 2, bit, n - 1, r - 1);
      assert (x + Up(bit, n)) / 2 == x / 2 + Up(bit, n - 1);
    }
  }

  lemma {:induction false} BitAdded(ctx: Context, cands: seq<Candidate>, picks: seq<nat>, modifier: nat, k: nat)
    requires Indexed(ctx, cands) && (forall r | 0 <= r < |picks| :: picks[r] < |cands|) && k < |cands|
    requires HasBits(ctx, cands, picks, modifier)
    ensures HasBits(ctx, cands, picks + [k], Or(modifier, Shifted(EntropyBit(Info(ctx, cands[k])), |picks|)))
  {
    BitOver(modifier, EntropyBit(Info(ctx, cands[k])), |picks|);
  }

  lemma {:induction false} SelectedSame(cands: seq<Candidate>, picks: seq<nat>, k: nat, r: nat)
    requires (forall i | 0 <= i < |picks| :: picks[i] < |cands|) && k < |cands| && r <= |picks|
    ensures SelectedIn(cands, picks + [k], r) == SelectedIn(cands, picks, r)
  {
    var more := picks + [k];
    assert forall i | 0 <= i < r :: more[i] == picks[i];
    forall h | h in SelectedIn(cands, picks, r) ensures h in SelectedIn(cands, more, r) {
      var i :| 0 <= i < r && cands[picks[i]].hash == h;
      assert cands[more[i]].hash == h;
    }
    forall h | h in SelectedIn(cands, more, r) ensures h in SelectedIn(cands, picks, r) {
      var i :| 0 <= i < r && cands[more[i]].hash == h;
      assert cands[picks[i]].hash == h;
    }
  }

  lemma {:induction false} SelectedMore(cands: seq<Candidate>, picks: seq<nat>, k: nat)
    requires (forall i | 0 <= i < |picks| :: picks[i] < |cands|) && k < |cands|
    ensures SelectedIn(cands, picks + [k], |picks| + 1) == SelectedIn(cands, picks, |picks|) + {cands[k].hash}
  {
    var more := picks + [k];
    assert cands[more[|picks|]].hash in SelectedIn(cands, more, |picks| + 1);
    SelectedSame(cands, picks, k, |picks|);
  }

  lemma {:induction false} RoundAdded(ctx: Context, cands: seq<Candidate>, start: int, prev: nat, picks: seq<nat>, k: nat)
    requires Indexed(ctx, cands) && RoundsSelect(ctx, cands, start, prev, picks) && |picks| < 64
    requires Selects(ctx, cands, SelectedIn(cands, picks, |picks|), StopTime(start, |picks|), prev, k)
    ensures RoundsSelect(ctx, cands, start, prev, picks + [k])
    ensures SelectedIn(cands, picks + [k], |picks| + 1) == SelectedIn(cands, picks, |picks|) + {cands[k].hash}
  {
    SelectedMore(cands, picks, k);
    forall r | 0 <= r < |picks| + 1
      ensures Selects(ctx, cands, SelectedIn(cands, picks + [k], r), StopTime(start, r), prev, (picks + [k])[r])
    {
      SelectedSame(cands, picks, k, r);
      assert (picks + [k])[r] == if r < |picks| then picks[r] else k;
    }
  }

  /** What holds after the rounds that made the choices `picks`. */
  ghost predicate RoundsDone(ctx: Context, cands: seq<Candidate>, start: int, prev: nat, picks: seq<nat>,
                             stop: int, selected: set<nat>, modifier: nat)
    requires Indexed(ctx, cands)
  {
    && RoundsSelect(ctx, cands, start, prev, picks) && HasBits(ctx, cands, picks, modifier)
    && stop == (if |picks| == 0 then start else StopTime(start, |picks| - 1))
    && selected == SelectedIn(cands, picks, |picks|)
  }

  lemma {:induction false} NothingDone(ctx: Context, cands: seq<Candidate>, start: int, prev: nat)
    requires Indexed(ctx, cands)
    ensures RoundsDone(ctx, cands, start, prev, [], start, {}, 0)
  {
  }

  lemma {:induction false} RoundDone(ctx: Context, cands: seq<Candidate>, start: int, prev: nat, picks: seq<nat>,
                                     stop: int, selected: set<nat>, modifier: nat, k: nat, n: nat, stop': int)
    requires Indexed(ctx, cands) && RoundsDone(ctx, cands, start, prev, picks, stop, selected, modifier)
    requires n == |picks| < 64 && stop' == stop + IntervalSection(n)
    requires Selects(ctx, cands, selected, stop', prev, k)
    ensures RoundsDone(ctx, cands, start, prev, picks + [k], stop', selected + {cands[k].hash},
                       Or(modifier, Shifted(EntropyBit(Info(ctx, cands[k])), n)))
  {
    BitAdded(ctx, cands, picks, modifier, k);
    RoundAdded(ctx, cands, start, prev, picks, k);
  }

  /** One round: there is a candidate left, and the one to select is. */
  method SelectRound(ctx: Context, vSortedByTimestamp: seq<Candidate>, nStakeModifier: nat, nRound: nat,
                     stop: int, mapSelectedBlocks: set<nat>, modifier: nat, ghost start: int, ghost picks: seq<nat>)
      returns (fOk: bool, stop': int, mapSelectedBlocks': set<nat>, modifier': nat, ghost picks': seq<nat>)
    requires Indexed(ctx, vSortedByTimestamp) && |picks| == nRound < 64 && nRound < |vSortedByTimestamp|
    requires RoundsDone(ctx, vSortedByTimestamp, start, nStakeModifier, picks, stop, mapSelectedBlocks, modifier)
    ensures fOk && |picks'| == nRound + 1
    ensures RoundsDone(ctx, vSortedByTimestamp, start, nStakeModifier, picks', stop', mapSelectedBlocks', modifier')
  {
    stop' := stop + IntervalSection(nRound);
    mapSelectedBlocks', modifier', picks' := mapSelectedBlocks, modifier, picks;
    SomeLeft(ctx, vSortedByTimestamp, picks);
    var k;
    fOk, k := SelectBlockFromCandidates(ctx, vSortedByTimestamp, mapSelectedBlocks, stop', nStakeModifier);
    if !fOk {
      return;
    }
    RoundDone(ctx, vSortedByTimestamp, start, nStakeModifier, picks, stop, mapSelectedBlocks, modifier, k, nRound, stop');
    var b := ctx.mapBlockIndex[vSortedByTimestamp[k].hash];
    modifier' := Or(modifier, Shifted(EntropyBit(b), nRound));
    mapSelectedBlocks' := mapSelectedBlocks + {b.hash};
    picks' := picks + [k];
  }

  /**
  As many rounds as there are candidates, but no more than 64, each selecting another block; bit
  `r` of the modifier is the entropy bit of the block selected in round `r`.
  */
  method SelectBlocks(ctx: Context, vSortedByTimestamp: seq<Candidate>, nSelectionIntervalStart: int, nStakeModifier: nat)
      returns (fOk: bool, nStakeModifierNew: nat, ghost picks: seq<nat>)
    requires Indexed(ctx, vSortedByTimestamp)
    ensures fOk && |picks| == if |vSortedByTimestamp| < 64 then |vSortedByTimestamp| else 64
    ensures RoundsSelect(ctx, vSortedByTimestamp, nSelectionIntervalStart, nStakeModifier, picks)
    ensures forall i, j | 0 <= i < j < |picks| :: picks[i] != picks[j]
    ensures HasBits(ctx, vSortedByTimestamp, picks, nStakeModifierNew)
  {
    fOk, nStakeModifierNew, picks := true, 0, [];
    var nSelectionIntervalStop := nSelectionIntervalStart;
    var mapSelectedBlocks: set<nat> := {};
    NothingDone(ctx, vSortedByTimestamp, nSelectionIntervalStart, nStakeModifier);
    var nRounds := if 64 < |vSortedByTimestamp| then 64 else |vSortedByTimestamp|;
    for nRound := 0 to nRounds
      invariant fOk && |picks| == nRound
      invariant RoundsDone(ctx, vSortedByTimestamp, nSelectionIntervalStart, nStakeModifier, picks,
                           nSelectionIntervalStop, mapSelectedBlocks, nStakeModifierNew)
    {
      fOk, nSelectionIntervalStop, mapSelectedBlocks, nStakeModifierNew, picks :=
        SelectRound(ctx, vSortedByTimestamp, nStakeModifier, nRound, nSelectionIntervalStop, mapSelectedBlocks,
                    nStakeModifierNew, nSelectionIntervalStart, picks);
      if !fOk {
        return;
      }
    }
    PicksDiffer(ctx, vSortedByTimestamp, nSelectionIntervalStart, nStakeModifier, picks);
  }
}
