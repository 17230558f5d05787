/**
Reading back what has been written: the same entries and the same tables, but for new ids.
*/
module AddrManRoundTrip {
  import opened AddrManState
  import opened AddrManDisk
  import opened SetFacts

  //////////////////////////////////////////////////////////////////////////////
  //
  // Serialize
  //
  //////////////////////////////////////////////////////////////////////////////

  predicate Written(s: State, fInTried: bool, id: int) {
    id in s.info && if fInTried then s.info[id].fInTried else s.info[id].nRefCount != 0
  }

  /** The ids below `k` of the entries that are written as new, or as tried, in the order of mapInfo. */
  function Order(s: State, fInTried: bool, k: nat): (q: seq<int>)
    ensures forall i | 0 <= i < |q| :: 0 <= q[i] < k && Written(s, fInTried, q[i])
    ensures forall i, j | 0 <= i < j < |q| :: q[i] < q[j]
    decreases k
  {
    if k == 0 then [] else Order(s, fInTried, k - 1) + if Written(s, fInTried, k - 1) then [k - 1] else []
  }

  /** How many new entries are written. */
  function NewCount(s: State): nat {
    |Order(s, false, s.nIdCount)|
  }

  function EntryCount(s: State): nat {
    NewCount(s) + |Order(s, true, s.nIdCount)|
  }

  /** How many new entries are written before entry `id`. */
  function Rank(s: State, id: int): nat {
    if id < 0 then 0 else |Order(s, false, id)|
  }

  function Entries(s: State, q: seq<int>): seq<Saved>
    requires forall i | 0 <= i < |q| :: q[i] in s.info
  {
    seq(|q|, i requires 0 <= i < |q| => Save(s.info[q[i]]))
  }

  /** What is written of the positions below `i` of new bucket `b`. */
  function Row(s: State, b: nat, i: nat): seq<int>
    decreases i, b
  {
    if i == 0 then []
    else Row(s, b, i - 1) + if Cell(b, i - 1) in s.newTable then [Rank(s, s.newTable[Cell(b, i - 1)])] else []
  }

  function FileOf(s: State): AddrFile {
    AddrFile(1, s.h.nKey, Entries(s, Order(s, false, s.nIdCount)), Entries(s, Order(s, true, s.nIdCount)),
             FlipBit30(NEW_BUCKET_COUNT), seq(NEW_BUCKET_COUNT, b requires 0 <= b => Row(s, b, BUCKET_SIZE)))
  }

  //////////////////////////////////////////////////////////////////////////////
  //
  // New ids
  //
  //////////////////////////////////////////////////////////////////////////////

  /** Entry `id` is in its place in the order. */
  lemma {:induction false} OrderAt(s: State, fInTried: bool, id: int, k: nat)
    requires 0 <= id < k && Written(s, fInTried, id)
    ensures var n := |Order(s, fInTried, id)|;
            n < |Order(s, fInTried, k)| && Order(s, fInTried, k)[n] == id
    decreases k
  {
    if id < k - 1 {
      OrderAt(s, fInTried, id, k - 1);
    }
  }

  /** What is in place `n` of the order has `n` entries before it. */
  lemma {:induction false} OrderOf(s: State, fInTried: bool, n: nat, k: nat)
    requires n < |Order(s, fInTried, k)|
    ensures |Order(s, fInTried, Order(s, fInTried, k)[n])| == n
  {
    var id := Order(s, fInTried, k)[n];
    OrderAt(s, fInTried, id, k);
  }

  /** The id that an entry has after reading. */
  function NewId(s: State, id: int): int
    requires id in s.info && id >= 0
  {
    if s.info[id].fInTried then |Order(s, false, s.nIdCount)| + |Order(s, true, id)| else Rank(s, id)
  }

  /** In a consistent state, what is written as new are the new entries. */
  lemma {:induction false} WrittenNew(s: State, id: int)
    requires Inv(s) && id in s.info
    ensures 0 <= id < s.nIdCount
    ensures Written(s, false, id) <==> !s.info[id].fInTried
  {
    assert EntryIndexed(s, id);
    if s.info[id].fInTried {
      assert TriedEntryOk(s, id);
    } else {
      assert NewEntryOk(s, id, {});
    }
  }

  /** Which entry is read under id `n`. */
  function OldId(s: State, n: int): int {
    var news, tried := Order(s, false, s.nIdCount), Order(s, true, s.nIdCount);
    if 0 <= n < |news| then news[n] else if |news| <= n < |news| + |tried| then tried[n - |news|] else -1
  }

  lemma {:induction false} OldNewId(s: State, id: int)
    requires Inv(s) && id in s.info
    ensures id >= 0 && OldId(s, NewId(s, id)) == id
    ensures 0 <= NewId(s, id) < EntryCount(s)
    ensures NewId(s, id) < NewCount(s) <==> !s.info[id].fInTried
  {
    WrittenNew(s, id);
    OrderAt(s, s.info[id].fInTried, id, s.nIdCount);
  }

  lemma {:induction false} NewOldId(s: State, n: int)
    requires Inv(s) && 0 <= n < EntryCount(s)
    ensures OldId(s, n) in s.info && OldId(s, n) >= 0 && NewId(s, OldId(s, n)) == n
  {
    var news, id := Order(s, false, s.nIdCount), OldId(s, n);
    if n < |news| {
      WrittenNew(s, id);
      OrderOf(s, false, n, s.nIdCount);
    } else {
      WrittenNew(s, id);
      OrderOf(s, true, n - |news|, s.nIdCount);
    }
  }

  /** The counters are right: as many entries are written as they say. */
  lemma {:induction false} CountsWritten(s: State)
    requires Inv(s)
    ensures |Order(s, false, s.nIdCount)| == s.nNew && |Order(s, true, s.nIdCount)| == s.nTried
  {
    OrderCounts(s, false, NewIds(s));
    OrderCounts(s, true, TriedIds(s));
  }

  lemma {:induction false} OrderCounts(s: State, fInTried: bool, ids: set<int>)
    requires Inv(s) && ids == set id | id in s.info && s.info[id].fInTried == fInTried
    ensures |Order(s, fInTried, s.nIdCount)| == |ids|
  {
    var q := Order(s, fInTried, s.nIdCount);
    forall x ensures x in ids <==> x in q {
      if x in s.info {
        WrittenNew(s, x);
        if x in ids {
          OrderAt(s, fInTried, x, s.nIdCount);
        }
      }
    }
    assert ids == set x | x in q;
    DistinctSize(q, ids);
  }

  //////////////////////////////////////////////////////////////////////////////
  //
  // The file is sound
  //
  //////////////////////////////////////////////////////////////////////////////

  lemma {:induction false} IpsDiffer(s: State, a: int, b: int)
    requires Inv(s) && a in s.info && b in s.info && a != b
    ensures IpOf(s.info[a]) != IpOf(s.info[b])
  {
    assert EntryIndexed(s, a) && EntryIndexed(s, b);
  }

  lemma {:induction false} FileSound(s: State)
    requires Inv(s)
    ensures Sound(FileOf(s)) && Shaped(FileOf(s)) && Usable(FileOf(s))
  {
    var f := FileOf(s);
    var news, tried := Order(s, false, s.nIdCount), Order(s, true, s.nIdCount);
    forall i, j | 0 <= i < j < |news| ensures Ip(f.newEntries[i]) != Ip(f.newEntries[j]) {
      IpsDiffer(s, news[i], news[j]);
    }
    forall i, j | 0 <= i < j < |tried| ensures Ip(f.triedEntries[i]) != Ip(f.triedEntries[j]) {
      IpsDiffer(s, tried[i], tried[j]);
    }
    forall i, j | 0 <= i < |news| && 0 <= j < |tried| ensures Ip(f.newEntries[i]) != Ip(f.triedEntries[j]) {
      WrittenNew(s, news[i]);
      IpsDiffer(s, news[i], tried[j]);
    }
  }

  //////////////////////////////////////////////////////////////////////////////
  //
  // What is read back
  //
  //////////////////////////////////////////////////////////////////////////////

  /** No new entry is moved, and none has a reference yet. */
  ghost predicate NewAre(s: State, f: AddrFile, k: nat)
    requires k <= |f.newEntries|
  {
    && s.nIdCount == |s.random| == k && s.newTable == map[] && s.triedTable == map[]
    && (forall id :: id in s.info <==> 0 <= id < k)
    && forall id | 0 <= id < k :: s.info[id] == Loaded(f.newEntries[id], false, id)
  }

  lemma {:induction false} AllNewAre(h: Hasher, f: AddrFile, k: nat)
    requires Usable(f) && k <= |f.newEntries|
    ensures NewAre(LoadAllNew(h, f, k), f, k)
    decreases k
  {
    if k > 0 {
      AllNewAre(h, f, k - 1);
      NewIs(LoadAllNew(h, f, k - 1), f, k);
    }
  }

  lemma {:induction false} NewIs(s: State, f: AddrFile, k: nat)
    requires 0 < k <= |f.newEntries| && NewAre(s, f, k - 1)
    ensures NewAre(LoadNew(s, f.newEntries[k - 1], true), f, k)
  {
  }

  function CellOf(h: Hasher, f: AddrFile, j: nat): Cell
    requires j < |f.triedEntries|
  {
    h.TriedCell(f.triedEntries[j].addr.service)
  }

  /** Entry `id` is the one read in its place. */
  ghost predicate ReadEntry(t: State, s: State, f: AddrFile, id: int) {
    var n := |f.newEntries|;
    && id in t.info && 0 <= id < n + |f.triedEntries|
    && if id < n then id in s.info && t.info[id] == s.info[id] else t.info[id] == Loaded(f.triedEntries[id - n], true, id)
  }

  /** No tried entry is lost. */
  ghost predicate TriedAre(t: State, s: State, f: AddrFile, k: nat) {
    && k <= |f.triedEntries| && t.nIdCount == |t.random| == |f.newEntries| + k && t.h == s.h
    && (forall id :: id in t.info ==> 0 <= id < t.nIdCount)
    && forall id {:trigger ReadEntry(t, s, f, id)} | 0 <= id < t.nIdCount :: ReadEntry(t, s, f, id)
  }

  ghost predicate CellsDiffer(h: Hasher, f: AddrFile) {
    forall i, j | 0 <= i < j < |f.triedEntries| :: CellOf(h, f, i) != CellOf(h, f, j)
  }

  lemma {:induction false} AllTriedAre(s: State, f: AddrFile, k: nat)
    requires NewAre(s, f, |f.newEntries|) && k <= |f.triedEntries| && CellsDiffer(s.h, f)
    requires TriedLoaded(s, s, f, 0)
    ensures TriedAre(LoadAllTried(s, f, k), s, f, k)
    decreases k
  {
    if k > 0 {
      AllTriedAre(s, f, k - 1);
      NextTriedIs(s, f, k);
    } else {
      NoTriedYet(s, f);
    }
  }

  lemma {:induction false} NextTriedIs(s: State, f: AddrFile, k: nat)
    requires 0 < k <= |f.triedEntries| && TriedAre(LoadAllTried(s, f, k - 1), s, f, k - 1)
    requires CellsDiffer(s.h, f) && TriedLoaded(s, s, f, 0)
    ensures TriedAre(LoadAllTried(s, f, k), s, f, k)
  {
    TriedFits(s, f, k - 1);
    TriedIs(LoadAllTried(s, f, k - 1), s, f, k);
  }

  lemma {:induction false} NoTriedYet(s: State, f: AddrFile)
    requires NewAre(s, f, |f.newEntries|)
    ensures TriedAre(s, s, f, 0)
  {
    forall id | 0 <= id < s.nIdCount ensures ReadEntry(s, s, f, id) {
    }
  }

  lemma {:induction false} TriedFits(s: State, f: AddrFile, k: nat)
    requires k <= |f.triedEntries| && TriedLoaded(s, s, f, 0)
    ensures var t := LoadAllTried(s, f, k); TriedConsistent(t) && Split(t, |f.newEntries|)
  {
    AllTriedKeeps(s, f, k);
  }

  /** A taken cell is that of an earlier tried entry. */
  lemma {:induction false} TakenBy(t: State, s: State, f: AddrFile, k: nat, c: Cell) returns (j: nat)
    requires TriedAre(t, s, f, k) && TriedConsistent(t) && Split(t, |f.newEntries|) && c in t.triedTable
    ensures j < k && c == CellOf(s.h, f, j)
  {
    assert TriedCellOk(t, c);
    assert ReadEntry(t, s, f, t.triedTable[c]);
    j := t.triedTable[c] - |f.newEntries|;
  }

  lemma {:induction false} TriedIs(t: State, s: State, f: AddrFile, k: nat)
    requires 0 < k <= |f.triedEntries| && TriedAre(t, s, f, k - 1) && CellsDiffer(s.h, f)
    requires TriedConsistent(t) && Split(t, |f.newEntries|)
    ensures TriedAre(LoadTried(t, f.triedEntries[k - 1]), s, f, k)
  {
    var c := CellOf(s.h, f, k - 1);
    if c in t.triedTable {
      var j := TakenBy(t, s, f, k - 1, c);
    }
    var u := LoadTried(t, f.triedEntries[k - 1]);
    forall id | 0 <= id < u.nIdCount ensures ReadEntry(u, s, f, id) {
      assert id < t.nIdCount ==> ReadEntry(t, s, f, id);
    }
  }

  /** The cells of the new table of the buckets below `b`, and of the positions below `i` of bucket `b`. */
  predicate Before(c: Cell, b: nat, i: nat) {
    c.bucket < b || (c.bucket == b && c.pos < i)
  }

  ghost function Moved(s: State, b: nat, i: nat): Table {
    map c | c in s.newTable && Before(c, b, i) :: Rank(s, s.newTable[c])
  }

  /** `t` has the entries of `t0`, those of `s` under new ids, and the references of `s` as far as position `i` of bucket `b`. */
  ghost predicate Refers(s: State, t0: State, t: State, b: nat, i: nat) {
    Referred(t, t0, NewCount(s)) && t.newTable == Moved(s, b, i)
  }

  /** Under id `n`, the address of the entry of that rank has been read. */
  ghost predicate ReadAs(s: State, t: State) {
    forall n {:trigger ServiceRead(s, t, n)} | 0 <= n < NewCount(s) :: ServiceRead(s, t, n)
  }

  ghost predicate ServiceRead(s: State, t: State, n: int) {
    n in t.info && OldId(s, n) in s.info && ServiceOf(t.info[n]) == ServiceOf(s.info[OldId(s, n)])
  }

  /** An entry has fewer references than it had as long as one is missing. */
  lemma {:induction false} FewerRefs(s: State, t: State, b: nat, i: nat, c: Cell)
    requires Inv(s) && Loading(t) && t.newTable == Moved(s, b, i) && c in s.newTable && !Before(c, b, i)
    requires s.newTable[c] in s.info && !s.info[s.newTable[c]].fInTried
    requires var n := Rank(s, s.newTable[c]); n in t.info && !t.info[n].fInTried
    ensures t.info[Rank(s, s.newTable[c])].nRefCount < NEW_BUCKETS_PER_ADDRESS
  {
    var id := s.newTable[c];
    var n := Rank(s, id);
    assert NewEntryOk(s, id, {}) && NewEntryOk(t, n, LooseIds(t));
    assert c in Refs(s, id);
    forall d | d in Refs(t, n) ensures d in Refs(s, id) - {c} {
      assert NewCellOk(s, d);
      RankInjective(s, s.newTable[d], id);
    }
    SubsetSize(Refs(t, n), Refs(s, id) - {c});
  }

  lemma {:induction false} RankInjective(s: State, a: int, b: int)
    requires Inv(s) && a in s.info && b in s.info && !s.info[a].fInTried && !s.info[b].fInTried && Rank(s, a) == Rank(s, b)
    ensures a == b
  {
    OldNewId(s, a);
    OldNewId(s, b);
  }

  lemma {:induction false} ReferOne(s: State, t0: State, t: State, b: nat, i: nat)
    requires i > 0 && Cell(b, i - 1) in s.newTable && b < NEW_BUCKET_COUNT
    requires Inv(s) && Refers(s, t0, t, b, i - 1) && ReadAs(s, t) && t.h == s.h
    ensures Refers(s, t0, Refer(t, b, Rank(s, s.newTable[Cell(b, i - 1)]), NewCount(s)), b, i)
  {
    var c := Cell(b, i - 1);
    var id := s.newTable[c];
    assert NewCellOk(s, c);
    OldNewId(s, id);
    var n := Rank(s, id);
    assert ServiceRead(s, t, n);
    FewerRefs(s, t, b, i - 1, c);
    assert s.h.NewCell(ServiceOf(t.info[n]), b) == c && c !in t.newTable;
    ReferKeeps(t, t0, b, n, NewCount(s));
    MovedNext(s, b, i, n);
  }

  lemma {:induction false} MovedNext(s: State, b: nat, i: nat, n: nat)
    requires i > 0 && Cell(b, i - 1) in s.newTable && n == Rank(s, s.newTable[Cell(b, i - 1)])
    ensures Moved(s, b, i) == Moved(s, b, i - 1)[Cell(b, i - 1) := n]
  {
  }

  lemma {:induction false} RowRefers(s: State, t0: State, t: State, b: nat, i: nat)
    requires Inv(s) && Refers(s, t0, t, b, 0) && ReadAs(s, t) && t.h == s.h && b < NEW_BUCKET_COUNT
    ensures Refers(s, t0, ReferRow(t, b, Row(s, b, i), NewCount(s)), b, i)
    decreases i
  {
    if i > 0 {
      RowRefers(s, t0, t, b, i - 1);
      RowNext(s, t0, t, b, i);
    }
  }

  lemma {:induction false} RowNext(s: State, t0: State, t: State, b: nat, i: nat)
    requires Inv(s) && Refers(s, t0, t, b, 0) && ReadAs(s, t) && t.h == s.h && b < NEW_BUCKET_COUNT && i > 0
    requires Refers(s, t0, ReferRow(t, b, Row(s, b, i - 1), NewCount(s)), b, i - 1)
    ensures Refers(s, t0, ReferRow(t, b, Row(s, b, i), NewCount(s)), b, i)
  {
    var u, row, c := ReferRow(t, b, Row(s, b, i - 1), NewCount(s)), Row(s, b, i), Cell(b, i - 1);
    if c in s.newTable {
      var n := Rank(s, s.newTable[c]);
      assert row == Row(s, b, i - 1) + [n];
      assert row[..|row| - 1] == Row(s, b, i - 1);
      ReadAsKept(s, t0, t, u);
      ReferOne(s, t0, u, b, i);
    } else {
      assert row == Row(s, b, i - 1);
      assert Moved(s, b, i) == Moved(s, b, i - 1);
    }
  }

  lemma {:induction false} ReadAsKept(s: State, t0: State, t: State, u: State)
    requires ReadAs(s, t) && SameButRefs(t0.info, t.info) && SameButRefs(t0.info, u.info)
    ensures ReadAs(s, u)
  {
    forall n | 0 <= n < NewCount(s) ensures ServiceRead(s, u, n) {
      assert ServiceRead(s, t, n);
    }
  }

  lemma {:induction false} RowsRefer(s: State, t: State, b: nat)
    requires Inv(s) && Refers(s, t, t, 0, 0) && ReadAs(s, t) && t.h == s.h && b <= NEW_BUCKET_COUNT
    ensures Refers(s, t, ReferRows(t, FileOf(s), b), b, 0)
    decreases b
  {
    if b > 0 {
      RowsRefer(s, t, b - 1);
      var u := ReferRows(t, FileOf(s), b - 1);
      ReadAsKept(s, t, t, u);
      RowRefers(s, t, u, b - 1, BUCKET_SIZE);
      WholeBucket(s, b - 1);
    }
  }

  lemma {:induction false} WholeBucket(s: State, b: nat)
    requires Inv(s)
    ensures Moved(s, b, BUCKET_SIZE) == Moved(s, b + 1, 0)
  {
    forall c | c in s.newTable ensures Before(c, b, BUCKET_SIZE) <==> Before(c, b + 1, 0) {
      assert NewCellOk(s, c);
    }
  }

  lemma {:induction false} PruneNothing(s: State, k: nat)
    requires Slotted(s) && LooseIds(s) == {}
    ensures Prune(s, k) == s
    decreases k
  {
    if k > 0 {
      PruneNothing(s, k - 1);
    }
  }

  //////////////////////////////////////////////////////////////////////////////
  //
  // The round trip
  //
  //////////////////////////////////////////////////////////////////////////////

  /** The entry, but for what is not written: when it was last tried, and where it is in the random order. */
  ghost predicate SameEntry(i: AddrInfo, j: AddrInfo) {
    j == i.(nLastTry := 0, nRandomPos := j.nRandomPos)
  }

  /** The tables of `t` hold what those of `s` hold, under other ids. */
  ghost predicate SameTable(a: Table, b: Table, ids: map<int, int>) {
    b.Keys == a.Keys && forall c | c in a :: a[c] in ids && b[c] == ids[a[c]]
  }

  /** Every id of `s` has its own id in `t`, and every id of `t` is that of one in `s`. */
  ghost predicate OneToOne(s: State, t: State, ids: map<int, int>) {
    && ids.Keys == s.info.Keys
    && (forall id | id in ids :: ids[id] in t.info) && (forall n | n in t.info :: n in ids.Values)
    && forall a, b | a in ids && b in ids && a != b :: ids[a] != ids[b]
  }

  ghost predicate SameEntries(s: State, t: State, ids: map<int, int>) {
    forall id | id in s.info :: id in ids && ids[id] in t.info && SameEntry(s.info[id], t.info[ids[id]])
  }

  /** `t` is `s` up to a renaming of ids. */
  ghost predicate Renamed(s: State, t: State, ids: map<int, int>) {
    && OneToOne(s, t, ids) && SameEntries(s, t, ids)
    && SameTable(s.triedTable, t.triedTable, ids) && SameTable(s.newTable, t.newTable, ids)
    && t.nNew == s.nNew && t.nTried == s.nTried && t.h == s.h
  }

  ghost function Renaming(s: State): map<int, int>
    requires forall id | id in s.info :: id >= 0
  {
    map id | id in s.info :: NewId(s, id)
  }

  lemma {:induction false} TriedCellsDiffer(s: State)
    requires Inv(s)
    ensures CellsDiffer(s.h, FileOf(s))
  {
    var f, tried := FileOf(s), Order(s, true, s.nIdCount);
    forall i, j | 0 <= i < j < |f.triedEntries| ensures CellOf(s.h, f, i) != CellOf(s.h, f, j) {
      assert TriedEntryOk(s, tried[i]) && TriedEntryOk(s, tried[j]);
    }
  }

  /** The state after the entries have been read, before any reference is. */
  ghost function EntriesRead(s: State): State {
    LoadAllTried(LoadAllNew(s.h, FileOf(s), |FileOf(s).newEntries|), FileOf(s), |FileOf(s).triedEntries|)
  }

  /** What has been read under id `n` is the entry that was written in that place. */
  ghost predicate EntryRead(s: State, t: State, n: int) {
    && n in t.info && OldId(s, n) in s.info
    && t.info[n] == Loaded(Save(s.info[OldId(s, n)]), n >= NewCount(s), n)
  }

  /** Entry by entry, what has been read is what was written. */
  ghost predicate EntriesAre(s: State, t: State) {
    && Loading(t) && Split(t, NewCount(s)) && t.h == s.h && t.newTable == map[]
    && (forall n :: n in t.info <==> 0 <= n < EntryCount(s))
    && (forall n {:trigger EntryRead(s, t, n)} | 0 <= n < EntryCount(s) :: EntryRead(s, t, n))
  }

  lemma {:induction false} EntriesCorrect(s: State)
    requires Inv(s)
    ensures EntriesAre(s, EntriesRead(s))
  {
    var f := FileOf(s);
    FileSound(s);
    AllNewKeeps(s.h, f, |f.newEntries|);
    AllNewAre(s.h, f, |f.newEntries|);
    var t0 := LoadAllNew(s.h, f, |f.newEntries|);
    AllTriedKeeps(t0, f, |f.triedEntries|);
    TriedCellsDiffer(s);
    AllTriedAre(t0, f, |f.triedEntries|);
    EntriesMatch(s, t0, EntriesRead(s), f);
  }

  lemma {:induction false} EntriesMatch(s: State, t0: State, t: State, f: AddrFile)
    requires f == FileOf(s) && NewAre(t0, f, |f.newEntries|) && TriedAre(t, t0, f, |f.triedEntries|)
    ensures forall n :: n in t.info <==> 0 <= n < EntryCount(s)
    ensures forall n {:trigger EntryRead(s, t, n)} | 0 <= n < EntryCount(s) :: EntryRead(s, t, n)
  {
    forall n | 0 <= n < EntryCount(s) ensures n in t.info && EntryRead(s, t, n) {
      assert ReadEntry(t, t0, f, n);
    }
  }

  /** Each tried entry is back in its cell. */
  lemma {:induction false} TriedTableCorrect(s: State, t: State)
    requires Inv(s) && EntriesAre(s, t) && forall id | id in s.info :: id >= 0
    ensures SameTable(s.triedTable, t.triedTable, Renaming(s))
  {
    forall c | c in s.triedTable
      ensures s.triedTable[c] in s.info && c in t.triedTable && t.triedTable[c] == Renaming(s)[s.triedTable[c]]
    {
      assert TriedCellOk(s, c);
      OldNewId(s, s.triedTable[c]);
      assert EntryRead(s, t, NewId(s, s.triedTable[c]));
      assert TriedEntryOk(t, NewId(s, s.triedTable[c]));
    }
    forall c | c in t.triedTable ensures c in s.triedTable {
      assert TriedCellOk(t, c);
      assert EntryRead(s, t, t.triedTable[c]);
      NewOldId(s, t.triedTable[c]);
      assert TriedEntryOk(s, OldId(s, t.triedTable[c]));
    }
  }

  /** The state after the references have been read. */
  ghost function AllRead(s: State): State {
    ReferRows(EntriesRead(s), FileOf(s), NEW_BUCKET_COUNT)
  }

  lemma {:induction false} ReferencesCorrect(s: State)
    requires Inv(s) && EntriesAre(s, EntriesRead(s))
    ensures Refers(s, EntriesRead(s), AllRead(s), NEW_BUCKET_COUNT, 0)
    ensures AllRead(s).newTable == Moved(s, NEW_BUCKET_COUNT, 0) && Moved(s, NEW_BUCKET_COUNT, 0).Keys == s.newTable.Keys
  {
    CellsInRange(s);
    ServicesRead(s, EntriesRead(s));
    RowsRefer(s, EntriesRead(s), NEW_BUCKET_COUNT);
  }

  lemma {:induction false} CellsInRange(s: State)
    requires Inv(s)
    ensures Moved(s, 0, 0) == map[] && Moved(s, NEW_BUCKET_COUNT, 0).Keys == s.newTable.Keys
  {
    forall c | c in s.newTable ensures Before(c, NEW_BUCKET_COUNT, 0) && !Before(c, 0, 0) {
      assert NewCellOk(s, c);
    }
  }

  lemma {:induction false} ServicesRead(s: State, t: State)
    requires EntriesAre(s, t) && Moved(s, 0, 0) == map[]
    ensures Refers(s, t, t, 0, 0) && ReadAs(s, t)
  {
    forall n | 0 <= n < NewCount(s) ensures ServiceRead(s, t, n) {
      assert EntryRead(s, t, n);
    }
  }

  /** Every new entry has as many references as it had. */
  lemma {:induction false} RefsCorrect(s: State, t: State, id: int)
    requires Inv(s) && Loading(t) && id in s.info && id >= 0 && !s.info[id].fInTried
    requires t.newTable == Moved(s, NEW_BUCKET_COUNT, 0) && t.newTable.Keys == s.newTable.Keys
    requires NewId(s, id) in t.info && !t.info[NewId(s, id)].fInTried
    ensures t.info[NewId(s, id)].nRefCount == s.info[id].nRefCount > 0
  {
    var n := NewId(s, id);
    assert NewEntryOk(s, id, {}) && NewEntryOk(t, n, LooseIds(t));
    forall c ensures c in Refs(t, n) <==> c in Refs(s, id) {
      if c in s.newTable {
        assert NewCellOk(s, c);
        if Rank(s, s.newTable[c]) == n {
          RankInjective(s, s.newTable[c], id);
        }
      }
    }
    assert Refs(t, n) == Refs(s, id);
  }

  lemma {:induction false} EntryCorrect(s: State, t0: State, t: State, id: int)
    requires Inv(s) && EntriesAre(s, t0) && Refers(s, t0, t, NEW_BUCKET_COUNT, 0) && id in s.info
    requires t.newTable.Keys == s.newTable.Keys
    ensures id >= 0 && NewId(s, id) in t.info && SameEntry(s.info[id], t.info[NewId(s, id)])
    ensures !s.info[id].fInTried ==> s.info[id].nRefCount > 0
  {
    OldNewId(s, id);
    var n := NewId(s, id);
    assert EntryRead(s, t0, n);
    assert t.info[n] == t0.info[n].(nRefCount := t.info[n].nRefCount);
    if s.info[id].fInTried {
      assert TriedEntryOk(s, id);
      assert TriedEntryOk(t, n);
    } else {
      RefsCorrect(s, t, id);
    }
  }

  lemma {:induction false} NoneLost(s: State, t0: State, t: State)
    requires Inv(s) && EntriesAre(s, t0) && Refers(s, t0, t, NEW_BUCKET_COUNT, 0) && t.newTable.Keys == s.newTable.Keys
    ensures LooseIds(t) == {}
  {
    forall n | n in t.info ensures n !in LooseIds(t) {
      NewOldId(s, n);
      EntryCorrect(s, t0, t, OldId(s, n));
    }
  }

  lemma {:induction false} HasInverse(s: State, ids: map<int, int>)
    requires forall id | id in ids :: OldId(s, ids[id]) == id
    ensures forall a, b | a in ids && b in ids && a != b :: ids[a] != ids[b]
  {
  }

  /** Different entries get different ids, and every id is that of an entry. */
  lemma {:induction false} RenamingOneToOne(s: State, t: State)
    requires Inv(s) && forall x | x in s.info :: x >= 0
    requires forall n :: n in t.info <==> 0 <= n < EntryCount(s)
    ensures OneToOne(s, t, Renaming(s))
  {
    RenamingInto(s, Renaming(s));
    RenamingOnto(s, Renaming(s));
    HasInverse(s, Renaming(s));
  }

  lemma {:induction false} RenamingInto(s: State, ids: map<int, int>)
    requires Inv(s) && (forall x | x in s.info :: x >= 0) && ids == Renaming(s)
    ensures forall id | id in ids :: 0 <= ids[id] < EntryCount(s) && OldId(s, ids[id]) == id
  {
    forall id | id in ids ensures 0 <= ids[id] < EntryCount(s) && OldId(s, ids[id]) == id {
      OldNewId(s, id);
    }
  }

  lemma {:induction false} RenamingOnto(s: State, ids: map<int, int>)
    requires Inv(s) && (forall x | x in s.info :: x >= 0) && ids == Renaming(s)
    ensures forall n | 0 <= n < EntryCount(s) :: n in ids.Values
  {
    forall n | 0 <= n < EntryCount(s) ensures n in ids.Values {
      NewOldId(s, n);
      assert OldId(s, n) in ids && ids[OldId(s, n)] == n;
    }
  }

  lemma {:induction false} NewTableCorrect(s: State, t: State)
    requires Inv(s) && t.newTable == Moved(s, NEW_BUCKET_COUNT, 0) && t.newTable.Keys == s.newTable.Keys
    requires forall id | id in s.info :: id >= 0
    ensures SameTable(s.newTable, t.newTable, Renaming(s))
  {
    forall c | c in s.newTable ensures s.newTable[c] in s.info && t.newTable[c] == Renaming(s)[s.newTable[c]] {
      assert NewCellOk(s, c);
    }
  }

  /**
  A manager that reads what a consistent one has written holds the same entries in the same cells
  under other ids: nothing is lost, and it is consistent again.
  */
  lemma {:induction false} RoundTrip(s: State)
    requires Inv(s)
    ensures Inv(Restore(s.h.net, FileOf(s)))
    ensures exists ids :: Renamed(s, Restore(s.h.net, FileOf(s)), ids)
  {
    var t := AllReadIs(s);
    RestoreKeeps(s.h.net, FileOf(s)) by {
      FileSound(s);
    }
    ReadIsRenamed(s, EntriesRead(s), t);
    assert Renamed(s, t, Renaming(s));
  }

  /** Nothing is pruned, so all that is read is kept. */
  lemma {:induction false} AllReadIs(s: State) returns (t: State)
    requires Inv(s)
    ensures t == Restore(s.h.net, FileOf(s)) && Inv(t)
    ensures EntriesAre(s, EntriesRead(s)) && Refers(s, EntriesRead(s), t, NEW_BUCKET_COUNT, 0) && t.newTable.Keys == s.newTable.Keys
  {
    FileSound(s);
    RestoreKeeps(s.h.net, FileOf(s));
    EntriesCorrect(s);
    ReferencesCorrect(s);
    t := AllRead(s);
    NoneLost(s, EntriesRead(s), t);
    PruneNothing(t, t.nIdCount);
  }

  lemma {:induction false} ReadIsRenamed(s: State, t0: State, t: State)
    requires Inv(s) && Inv(t) && EntriesAre(s, t0) && Refers(s, t0, t, NEW_BUCKET_COUNT, 0) && t.newTable.Keys == s.newTable.Keys
    ensures (forall id | id in s.info :: id >= 0) && Renamed(s, t, Renaming(s))
  {
    IdsNatural(s);
    EntriesCarried(s, t0, t);
    RenamingOneToOne(s, t);
    TablesBack(s, t0, t);
    CountersCorrect(s, t, Renaming(s));
  }

  lemma {:induction false} TablesBack(s: State, t0: State, t: State)
    requires Inv(s) && EntriesAre(s, t0) && Refers(s, t0, t, NEW_BUCKET_COUNT, 0) && t.newTable.Keys == s.newTable.Keys
    requires forall id | id in s.info :: id >= 0
    ensures SameTable(s.triedTable, t.triedTable, Renaming(s)) && SameTable(s.newTable, t.newTable, Renaming(s)) && t.h == s.h
  {
    TriedTableCorrect(s, t0);
    NewTableCorrect(s, t);
  }

  lemma {:induction false} IdsNatural(s: State)
    requires Indexed(s)
    ensures forall id | id in s.info :: id >= 0
  {
    forall id | id in s.info ensures id >= 0 {
      assert EntryIndexed(s, id);
    }
  }

  lemma {:induction false} EntriesCarried(s: State, t0: State, t: State)
    requires Inv(s) && EntriesAre(s, t0) && Refers(s, t0, t, NEW_BUCKET_COUNT, 0) && t.newTable.Keys == s.newTable.Keys
    requires forall id | id in s.info :: id >= 0
    ensures SameEntries(s, t, Renaming(s))
    ensures forall n :: n in t.info <==> 0 <= n < EntryCount(s)
  {
    forall id | id in s.info ensures Renaming(s)[id] in t.info && SameEntry(s.info[id], t.info[Renaming(s)[id]]) {
      EntryCorrect(s, t0, t, id);
    }
  }

  lemma {:induction false} CountersCorrect(s: State, t: State, ids: map<int, int>)
    requires Inv(s) && (forall id | id in s.info :: id >= 0) && ids == Renaming(s)
    requires t.nNew == |NewIds(t)| && t.nTried == |TriedIds(t)|
    requires OneToOne(s, t, ids) && SameEntries(s, t, ids)
    requires forall n :: n in t.info <==> 0 <= n < EntryCount(s)
    ensures t.nNew == s.nNew && t.nTried == s.nTried
  {
    ImageOf(s, t, ids, NewIds(s), NewIds(t), false);
    SameSize(NewIds(s), NewIds(t), ids);
    ImageOf(s, t, ids, TriedIds(s), TriedIds(t), true);
    SameSize(TriedIds(s), TriedIds(t), ids);
  }

  lemma {:induction false} ImageOf(s: State, t: State, ids: map<int, int>, a: set<int>, b: set<int>, fInTried: bool)
    requires Inv(s) && (forall id | id in s.info :: id >= 0) && ids == Renaming(s) && SameEntries(s, t, ids)
    requires forall n :: n in t.info <==> 0 <= n < EntryCount(s)
    requires a == set id | id in s.info && s.info[id].fInTried == fInTried
    requires b == set id | id in t.info && t.info[id].fInTried == fInTried
    ensures a <= ids.Keys && b == set x | x in a :: ids[x]
  {
    forall n | n in b ensures n in set x | x in a :: ids[x] {
      NewOldId(s, n);
      assert ids[OldId(s, n)] == n && OldId(s, n) in a;
    }
    forall n | n in set x | x in a :: ids[x] ensures n in b {
    }
  }

  lemma {:induction false} SameSize(a: set<int>, b: set<int>, ids: map<int, int>)
    requires a <= ids.Keys && forall x, y | x in ids && y in ids && x != y :: ids[x] != ids[y]
    requires b == set x | x in a :: ids[x]
    ensures |a| == |b|
    decreases a
  {
    MemberOrEmpty(a);
    if a != {} {
      var x: int :| x in a;
      SameSize(a - {x}, b - {ids[x]}, ids);
    }
  }
}
