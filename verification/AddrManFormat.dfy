/**
The file of the address manager in its own terms: what stands where in the one that is written,
and what becomes of each part of one that is read, whatever its version and number of buckets.
*/
module AddrManFormat {
  import opened AddrManState
  import opened AddrManTables
  import opened AddrManDisk
  import opened AddrManRoundTrip

  //////////////////////////////////////////////////////////////////////////////
  //
  // The version and the number of buckets
  //
  //////////////////////////////////////////////////////////////////////////////

  /**
  Bit 30 marks the number of buckets in every version but 0, in which the number stands plain.
  Positions are used from files of version 1 that say 2^30 + 1024.
  */
  lemma {:induction false} BucketCountExactly(f: AddrFile, n: int)
    ensures f.nVersion == 0 ==> BucketCount(f) == f.nUBuckets
    ensures f.nVersion != 0 && 0 <= n < 0x4000_0000 ==>
              && (BucketCount(f) == n <==> f.nUBuckets == n + 0x4000_0000)
              && (BucketCount(f) == n + 0x4000_0000 <==> f.nUBuckets == n)
    ensures Usable(f) <==> f.nVersion == 1 && f.nUBuckets == 0x4000_0400
  {
  }

  //////////////////////////////////////////////////////////////////////////////
  //
  // What is written
  //
  //////////////////////////////////////////////////////////////////////////////

  /** The entries of one table with smaller ids. */
  ghost function Earlier(s: State, fInTried: bool, id: int): set<int> {
    set x | x in s.info && s.info[x].fInTried == fInTried && x < id
  }

  /** The occupied positions of new bucket `b` below `p`. */
  ghost function PositionsBelow(s: State, b: nat, p: int): set<int> {
    set c | c in s.newTable && c.bucket == b && 0 <= c.pos < p :: c.pos
  }

  /** Entry `id` stands behind those of its table with smaller ids, without the time of its last attempt. */
  ghost predicate EntryLaid(s: State, f: AddrFile, id: int)
    requires id in s.info
  {
    var i := s.info[id];
    var q, n := if i.fInTried then f.triedEntries else f.newEntries, |Earlier(s, i.fInTried, id)|;
    n < |q| && q[n] == Saved(i.addr, i.source, i.nLastSuccess, i.nAttempts)
  }

  /** The occupant of position `p` of bucket `b` stands behind those of lower positions, by its place among the new entries. */
  ghost predicate PositionLaid(s: State, row: seq<int>, b: nat, p: int)
    requires Cell(b, p) in s.newTable
  {
    var n := |PositionsBelow(s, b, p)|;
    n < |row| && row[n] == |Earlier(s, false, s.newTable[Cell(b, p)])|
  }

  ghost predicate RowLaid(s: State, row: seq<int>, b: nat) {
    |row| == |PositionsBelow(s, b, 64)| && forall p | 0 <= p < 64 && Cell(b, p) in s.newTable :: PositionLaid(s, row, b, p)
  }

  /** What stands in the file. */
  ghost predicate Laid(s: State, f: AddrFile) {
    && f.nVersion == 1 && f.nKey == s.h.nKey && f.nUBuckets == 0x4000_0400
    && |f.newEntries| == s.nNew && |f.triedEntries| == s.nTried && |f.buckets| == 1024
    && (forall id {:trigger EntryLaid(s, f, id)} | id in s.info :: EntryLaid(s, f, id))
    && forall b | 0 <= b < 1024 :: RowLaid(s, f.buckets[b], b)
  }

  lemma {:induction false} OrderSize(s: State, fInTried: bool, k: nat)
    requires Inv(s)
    ensures |Order(s, fInTried, k)| == |Earlier(s, fInTried, k)|
    decreases k
  {
    if k == 0 {
      forall x | x in s.info ensures x >= 0 {
        WrittenNew(s, x);
      }
      assert Earlier(s, fInTried, k) == {};
    } else {
      OrderSize(s, fInTried, k - 1);
      EarlierNext(s, fInTried, k);
    }
  }

  lemma {:induction false} EarlierNext(s: State, fInTried: bool, k: nat)
    requires Inv(s) && k > 0
    ensures Earlier(s, fInTried, k) == Earlier(s, fInTried, k - 1) + if Written(s, fInTried, k - 1) then {k - 1} else {}
  {
    if k - 1 in s.info {
      WrittenNew(s, k - 1);
    }
  }

  lemma {:induction false} RowSize(s: State, b: nat, i: nat)
    ensures |Row(s, b, i)| == |PositionsBelow(s, b, i)|
    decreases i
  {
    if i == 0 {
      assert PositionsBelow(s, b, i) == {};
    } else {
      RowSize(s, b, i - 1);
      PositionsNext(s, b, i);
    }
  }

  lemma {:induction false} PositionsNext(s: State, b: nat, i: nat)
    requires i > 0
    ensures PositionsBelow(s, b, i) == PositionsBelow(s, b, i - 1) + if Cell(b, i - 1) in s.newTable then {i - 1} else {}
  {
    forall p ensures p in PositionsBelow(s, b, i) <==> Cell(b, p) in s.newTable && 0 <= p < i {
      if Cell(b, p) in s.newTable && 0 <= p < i {
        assert Cell(b, p).pos in PositionsBelow(s, b, i);
      }
    }
    forall p ensures p in PositionsBelow(s, b, i - 1) <==> Cell(b, p) in s.newTable && 0 <= p < i - 1 {
      if Cell(b, p) in s.newTable && 0 <= p < i - 1 {
        assert Cell(b, p).pos in PositionsBelow(s, b, i - 1);
      }
    }
  }

  /** The occupant of a position stands where those below it end. */
  lemma {:induction false} RowAt(s: State, b: nat, p: nat, i: nat)
    requires p < i && Cell(b, p) in s.newTable
    ensures |Row(s, b, p)| < |Row(s, b, i)| && Row(s, b, i)[|Row(s, b, p)|] == Rank(s, s.newTable[Cell(b, p)])
    decreases i
  {
    if p < i - 1 {
      RowAt(s, b, p, i - 1);
    }
  }

  lemma {:induction false} RowIsLaid(s: State, b: nat)
    requires Inv(s)
    ensures RowLaid(s, Row(s, b, BUCKET_SIZE), b)
  {
    RowSize(s, b, BUCKET_SIZE);
    forall p | 0 <= p < 64 && Cell(b, p) in s.newTable ensures PositionLaid(s, Row(s, b, BUCKET_SIZE), b, p) {
      RowAt(s, b, p, BUCKET_SIZE);
      RowSize(s, b, p);
      var id := s.newTable[Cell(b, p)];
      assert NewCellOk(s, Cell(b, p));
      WrittenNew(s, id);
      OrderSize(s, false, id);
    }
  }

  lemma {:induction false} EntryIsLaid(s: State, id: int)
    requires Inv(s) && id in s.info
    ensures EntryLaid(s, FileOf(s), id)
  {
    WrittenNew(s, id);
    OrderAt(s, s.info[id].fInTried, id, s.nIdCount);
    OrderSize(s, s.info[id].fInTried, id);
  }

  /** Serialize lays out every entry and every reference, each exactly once, and nothing else. */
  lemma {:induction false} FileLaid(s: State)
    requires Inv(s)
    ensures Laid(s, FileOf(s))
  {
    var f := FileOf(s);
    CountsWritten(s);
    forall id | id in s.info ensures EntryLaid(s, f, id) {
      EntryIsLaid(s, id);
    }
    forall b | 0 <= b < 1024 ensures RowLaid(s, f.buckets[b], b) {
      RowIsLaid(s, b);
    }
  }

  //////////////////////////////////////////////////////////////////////////////
  //
  // What becomes of the entries of a file
  //
  //////////////////////////////////////////////////////////////////////////////

  /** Entry `i` was read from `r`; it has not been tried since. */
  ghost predicate ReadFrom(i: AddrInfo, r: Saved, fInTried: bool) {
    && i.addr == r.addr && i.source == r.source && i.nLastSuccess == r.nLastSuccess && i.nAttempts == r.nAttempts
    && i.nLastTry == 0 && i.fInTried == fInTried
  }

  /** The new cell entry `j` of the file asks for, by the source it names. */
  function Asked(h: Hasher, f: AddrFile, j: nat): Cell
    requires j < |f.newEntries|
  {
    var a := f.newEntries[j].addr.service;
    h.NewCell(a, h.GetNewBucket(a, f.newEntries[j].source))
  }

  /** Of the entries that ask for a cell the first has it. */
  ghost predicate FirstComeFirstServed(t: Table, h: Hasher, f: AddrFile, k: nat)
    requires k <= |f.newEntries|
  {
    && (forall j | 0 <= j < k :: Asked(h, f, j) in t)
    && (forall c | c in t :: 0 <= t[c] < k && Asked(h, f, t[c]) == c && forall i | 0 <= i < t[c] :: Asked(h, f, i) != c)
  }

  /** Tried entry `j` is the first of the file with its cell. */
  ghost predicate FirstTried(h: Hasher, f: AddrFile, j: nat) {
    j < |f.triedEntries| && forall i | 0 <= i < j :: CellOf(h, f, i) != CellOf(h, f, j)
  }

  /** The tried entry read from entry `j` of the file is in its cell. */
  ghost predicate TriedRead(t: State, f: AddrFile, j: nat) {
    && j < |f.triedEntries| && CellOf(t.h, f, j) in t.triedTable && t.triedTable[CellOf(t.h, f, j)] in t.info
    && ReadFrom(t.info[t.triedTable[CellOf(t.h, f, j)]], f.triedEntries[j], true)
  }

  /** Exactly the first entries with their cells are there. */
  ghost predicate TriedFirst(t: State, f: AddrFile, k: nat)
    requires k <= |f.triedEntries|
  {
    && (forall j {:trigger TriedRead(t, f, j)} | 0 <= j < k && FirstTried(t.h, f, j) :: TriedRead(t, f, j))
    && (forall c | c in t.triedTable :: exists j: nat :: j < k && CellOf(t.h, f, j) == c)
    && (forall j | 0 <= j < k :: CellOf(t.h, f, j) in t.triedTable)
  }

  /** Every new entry of the file is there, under its number. */
  ghost predicate NewRead(t: State, f: AddrFile, k: nat)
    requires k <= |f.newEntries|
  {
    forall j | 0 <= j < k :: j in t.info && ReadFrom(t.info[j], f.newEntries[j], false)
  }

  /** The first `k` new entries have been read, and placed if the file's positions cannot be used. */
  ghost predicate NewSoFar(s: State, h: Hasher, f: AddrFile, k: nat)
    requires k <= |f.newEntries|
  {
    NewRead(s, f, k) && if Usable(f) then s.newTable == map[] else FirstComeFirstServed(s.newTable, h, f, k)
  }

  lemma {:induction false} AllNewRead(h: Hasher, f: AddrFile, k: nat)
    requires k <= |f.newEntries|
    ensures NewSoFar(LoadAllNew(h, f, k), h, f, k)
    decreases k
  {
    if k > 0 {
      AllNewRead(h, f, k - 1);
      LoadedNext(h, f, k);
      NextNewRead(LoadAllNew(h, f, k - 1), LoadAllNew(h, f, k), h, f, k);
    } else {
      NoneRead(h, f);
    }
  }

  lemma {:induction false} NoneRead(h: Hasher, f: AddrFile)
    ensures NewSoFar(LoadAllNew(h, f, 0), h, f, 0)
  {
  }

  lemma {:induction false} LoadedNext(h: Hasher, f: AddrFile, k: nat)
    requires 0 < k <= |f.newEntries|
    ensures var s := LoadAllNew(h, f, k - 1);
            && s.h == h && s.nIdCount == k - 1 && k - 1 !in s.info
            && LoadAllNew(h, f, k) == LoadNew(s, f.newEntries[k - 1], Usable(f))
  {
    NextId(h, f, k - 1);
  }

  lemma {:induction false} NextId(h: Hasher, f: AddrFile, k: nat)
    requires k <= |f.newEntries|
    ensures var s := LoadAllNew(h, f, k); s.h == h && s.nIdCount == k && k !in s.info
  {
    AllNewKeeps(h, f, k);
  }

  lemma {:induction false} NextNewRead(s: State, t: State, h: Hasher, f: AddrFile, k: nat)
    requires 0 < k <= |f.newEntries| && s.h == h && s.nIdCount == k - 1 && k - 1 !in s.info && NewSoFar(s, h, f, k - 1)
    requires t == LoadNew(s, f.newEntries[k - 1], Usable(f))
    ensures NewSoFar(t, h, f, k)
  {
    forall j | 0 <= j < k ensures j in t.info && ReadFrom(t.info[j], f.newEntries[j], false) {
      assert j < k - 1 ==> ReadFrom(s.info[j], f.newEntries[j], false);
    }
    if !Usable(f) {
      assert t.newTable == if Asked(h, f, k - 1) in s.newTable then s.newTable else s.newTable[Asked(h, f, k - 1) := k - 1];
    }
  }

  /** The first `k` tried entries have been read, and all the new ones. */
  ghost predicate TriedSoFar(t: State, f: AddrFile, k: nat)
    requires k <= |f.triedEntries|
  {
    TriedFirst(t, f, k) && NewRead(t, f, |f.newEntries|)
  }

  lemma {:induction false} AllTriedRead(s: State, f: AddrFile, k: nat)
    requires k <= |f.triedEntries| && TriedLoaded(s, s, f, 0) && TriedSoFar(s, f, 0)
    ensures TriedSoFar(LoadAllTried(s, f, k), f, k)
    decreases k
  {
    if k > 0 {
      AllTriedRead(s, f, k - 1);
      TriedNext(s, f, k);
      NextTriedRead(LoadAllTried(s, f, k - 1), LoadAllTried(s, f, k), f, k);
    }
  }

  lemma {:induction false} TriedNext(s: State, f: AddrFile, k: nat)
    requires 0 < k <= |f.triedEntries| && TriedLoaded(s, s, f, 0)
    ensures var t := LoadAllTried(s, f, k - 1);
            Slotted(t) && LoadAllTried(s, f, k) == LoadTried(t, f.triedEntries[k - 1])
  {
    AllTriedKeeps(s, f, k - 1);
  }

  lemma {:induction false} NextTriedRead(s: State, t: State, f: AddrFile, k: nat)
    requires 0 < k <= |f.triedEntries| && Slotted(s) && TriedSoFar(s, f, k - 1) && t == LoadTried(s, f.triedEntries[k - 1])
    ensures TriedSoFar(t, f, k)
  {
    InsertSlotted(s, f.triedEntries[k - 1], true);
    TriedPlaced(s, t, f, k);
  }

  lemma {:induction false} TriedPlaced(s: State, t: State, f: AddrFile, k: nat)
    requires 0 < k <= |f.triedEntries| && s.nIdCount !in s.info && TriedFirst(s, f, k - 1)
    requires t == LoadTried(s, f.triedEntries[k - 1])
    ensures TriedFirst(t, f, k)
  {
    forall j | 0 <= j < k && FirstTried(t.h, f, j) ensures TriedRead(t, f, j) {
      TriedPlacedAt(s, t, f, k, j);
    }
    TriedCellsRead(s, t, f, k);
  }

  lemma {:induction false} TriedPlacedAt(s: State, t: State, f: AddrFile, k: nat, j: nat)
    requires 0 < k <= |f.triedEntries| && s.nIdCount !in s.info && TriedFirst(s, f, k - 1)
    requires t == LoadTried(s, f.triedEntries[k - 1]) && j < k && FirstTried(s.h, f, j)
    ensures TriedRead(t, f, j)
  {
    if j < k - 1 {
      assert TriedRead(s, f, j);
    }
  }

  lemma {:induction false} TriedCellsRead(s: State, t: State, f: AddrFile, k: nat)
    requires 0 < k <= |f.triedEntries| && TriedFirst(s, f, k - 1) && t == LoadTried(s, f.triedEntries[k - 1])
    ensures forall d | d in t.triedTable :: exists j: nat :: j < k && CellOf(t.h, f, j) == d
  {
    forall d | d in t.triedTable ensures exists j: nat :: j < k && CellOf(t.h, f, j) == d {
      if d in s.triedTable {
        var j: nat :| j < k - 1 && CellOf(s.h, f, j) == d;
        assert CellOf(t.h, f, j) == d;
      } else {
        assert CellOf(t.h, f, k - 1) == d;
      }
    }
  }

  /** Every reference is one the file gives. */
  ghost predicate Given(t: State, f: AddrFile, c: Cell)
    requires c in t.newTable
  {
    0 <= c.bucket < |f.buckets| && t.newTable[c] in f.buckets[c.bucket]
  }

  /** The reference from bucket `b` to entry `n` is there, unless its cell is taken or the entry has eight. */
  ghost predicate Served(t: State, b: nat, n: int) {
    n in t.info && (t.h.NewCell(t.info[n].addr.service, b) in t.newTable || t.info[n].nRefCount == 8)
  }

  ghost predicate RowServed(t: State, b: nat, row: seq<int>, count: nat) {
    forall n {:trigger Served(t, b, n)} | n in row && 0 <= n < count :: Served(t, b, n)
  }

  /** What referring does to what there is: entries stay, references and their numbers only grow. */
  ghost predicate Grows(s: State, t: State) {
    && t.h == s.h && SameButRefs(s.info, t.info)
    && (forall c | c in s.newTable :: c in t.newTable && t.newTable[c] == s.newTable[c])
    && (forall id | id in s.info :: s.info[id].nRefCount <= t.info[id].nRefCount && (s.info[id].nRefCount == 8 ==> t.info[id].nRefCount == 8))
  }

  lemma {:induction false} GrowsOn(s: State, t: State, u: State)
    requires Grows(s, t) && Grows(t, u)
    ensures Grows(s, u)
  {
    assert forall id | id in s.info :: id in t.info;
  }

  lemma {:induction false} ServedStays(s: State, t: State, b: nat, row: seq<int>, count: nat)
    requires Grows(s, t) && RowServed(s, b, row, count)
    ensures RowServed(t, b, row, count)
  {
    forall n | n in row && 0 <= n < count ensures Served(t, b, n) {
      assert Served(s, b, n);
    }
  }

  lemma {:induction false} ReferServes(s: State, b: nat, nIndex: int, count: nat)
    requires Loading(s) && Split(s, count) && (0 <= nIndex < count ==> nIndex in s.info)
    ensures var t := Refer(s, b, nIndex, count);
            && Grows(s, t) && (0 <= nIndex < count ==> Served(t, b, nIndex))
            && forall c | c in t.newTable && c !in s.newTable :: c.bucket == b && t.newTable[c] == nIndex
  {
    if 0 <= nIndex < count {
      assert NewEntryOk(s, nIndex, LooseIds(s));
    }
  }

  /** Every new entry of the file is there. */
  ghost predicate AllThere(s: State, count: nat) {
    forall n | 0 <= n < count :: n in s.info
  }

  lemma {:induction false} ReferRowServes(s: State, b: nat, row: seq<int>, count: nat)
    requires Referred(s, s, count) && b < NEW_BUCKET_COUNT && AllThere(s, count)
    ensures var t := ReferRow(s, b, row, count);
            && Grows(s, t) && RowServed(t, b, row, count)
            && forall c | c in t.newTable && c !in s.newTable :: c.bucket == b && t.newTable[c] in row
    decreases |row|
  {
    if row != [] {
      var front, n := row[..|row| - 1], row[|row| - 1];
      ReferRowServes(s, b, front, count);
      ReferRowKeeps(s, s, b, front, count);
      var u := ReferRow(s, b, front, count);
      assert u.info.Keys == s.info.Keys;
      ReferServes(u, b, n, count);
      var t := Refer(u, b, n, count);
      GrowsOn(s, u, t);
      ServedStays(u, t, b, front, count);
      assert row == front + [n];
    }
  }

  /** As far as the buckets below `b`, exactly what the file gives is there, where there is room. */
  ghost predicate RowsUsed(t: State, f: AddrFile, b: nat)
    requires b <= |f.buckets|
  {
    && (forall c {:trigger Given(t, f, c)} | c in t.newTable :: c.bucket < b && Given(t, f, c))
    && forall d | 0 <= d < b :: RowServed(t, d, f.buckets[d], |f.newEntries|)
  }

  lemma {:induction false} ReferRowsUse(s: State, f: AddrFile, b: nat)
    requires Referred(s, s, |f.newEntries|) && b <= |f.buckets| <= NEW_BUCKET_COUNT && AllThere(s, |f.newEntries|)
    requires s.newTable == map[]
    ensures var t := ReferRows(s, f, b); RowsUsed(t, f, b) && Grows(s, t)
    decreases b
  {
    if b > 0 {
      ReferRowsUse(s, f, b - 1);
      ReferRowsKeeps(s, f, b - 1);
      var u := ReferRows(s, f, b - 1);
      assert u.info.Keys == s.info.Keys;
      ReferRowServes(u, b - 1, f.buckets[b - 1], |f.newEntries|);
      NextRowUsed(u, ReferRow(u, b - 1, f.buckets[b - 1], |f.newEntries|), f, b);
      GrowsOn(s, u, ReferRow(u, b - 1, f.buckets[b - 1], |f.newEntries|));
    }
  }

  lemma {:induction false} NextRowUsed(u: State, t: State, f: AddrFile, b: nat)
    requires 0 < b <= |f.buckets| && RowsUsed(u, f, b - 1) && Grows(u, t) && RowServed(t, b - 1, f.buckets[b - 1], |f.newEntries|)
    requires forall c | c in t.newTable && c !in u.newTable :: c.bucket == b - 1 && t.newTable[c] in f.buckets[b - 1]
    ensures RowsUsed(t, f, b)
  {
    forall c | c in t.newTable ensures c.bucket < b && Given(t, f, c) {
      assert c in u.newTable ==> Given(u, f, c);
    }
    forall d | 0 <= d < b ensures RowServed(t, d, f.buckets[d], |f.newEntries|) {
      if d < b - 1 {
        ServedStays(u, t, d, f.buckets[d], |f.newEntries|);
      }
    }
  }

  /** What is read of a file: `s` before pruning, `t` in the end. */
  ghost predicate Recovered(t: State, s: State, f: AddrFile) {
    && TriedFirst(t, f, |f.triedEntries|) && t.newTable == s.newTable
    && (if f.nVersion == 1 && f.nUBuckets == 0x4000_0400 then |f.buckets| == 1024 && RowsUsed(s, f, 1024)
        else FirstComeFirstServed(t.newTable, t.h, f, |f.newEntries|))
    && NewRead(s, f, |f.newEntries|) && NewKept(t, f)
    && (forall id | id in t.info && !t.info[id].fInTried :: 0 <= id < |f.newEntries|)
  }

  /** The new entries with a reference are kept. */
  ghost predicate NewKept(t: State, f: AddrFile) {
    forall j | 0 <= j < |f.newEntries| ::
      (j in t.info <==> Refs(t, j) != {}) && (j in t.info ==> ReadFrom(t.info[j], f.newEntries[j], false))
  }

  /**
  What is read of a file.  Of the tried entries with one cell the first is kept.  If the positions
  can be used, the references are those the file gives, as far as cells are free and an entry has
  fewer than eight; else each new entry asks for the one cell its source gives it, and the first
  to ask has it.  New entries left without a reference are pruned.
  */
  lemma {:induction false} RestoreHolds(net: Net, f: AddrFile)
    requires Shaped(f)
    ensures Restore(net, f).h == Hasher(net, f.nKey)
    ensures Recovered(Restore(net, f), ReadIn(net, f), f)
  {
    ReadInHolds(net, f);
    RestorePrunes(net, f);
    PrunedHolds(ReadIn(net, f), Restore(net, f), f);
  }

  lemma {:induction false} RestorePrunes(net: Net, f: AddrFile)
    requires Shaped(f)
    ensures Loading(ReadIn(net, f)) && AllPruned(Restore(net, f), ReadIn(net, f))
  {
    ReadInLoads(net, f);
    PruneKeeps(ReadIn(net, f), ReadIn(net, f).nIdCount);
    NoneLoose(Restore(net, f), ReadIn(net, f));
  }

  /** What is read, before pruning. */
  ghost predicate ReadSoFar(s: State, f: AddrFile) {
    && TriedFirst(s, f, |f.triedEntries|) && NewRead(s, f, |f.newEntries|) && Split(s, |f.newEntries|)
    && if f.nVersion == 1 && f.nUBuckets == 0x4000_0400 then |f.buckets| == 1024 && RowsUsed(s, f, 1024)
       else FirstComeFirstServed(s.newTable, s.h, f, |f.newEntries|)
  }

  lemma {:induction false} ReadInHolds(net: Net, f: AddrFile)
    requires Shaped(f)
    ensures ReadIn(net, f).h == Hasher(net, f.nKey) && ReadSoFar(ReadIn(net, f), f)
  {
    var h := Hasher(net, f.nKey);
    var s := LoadAllNew(h, f, |f.newEntries|);
    AllNewKeeps(h, f, |f.newEntries|);
    AllNewRead(h, f, |f.newEntries|);
    assert TriedSoFar(s, f, 0);
    AllTriedKeeps(s, f, |f.triedEntries|);
    AllTriedRead(s, f, |f.triedEntries|);
    var t := LoadAllTried(s, f, |f.triedEntries|);
    BucketCountExactly(f, 1024);
    if Usable(f) {
      ReferencesHold(t, f);
    }
  }

  lemma {:induction false} ReferencesHold(t: State, f: AddrFile)
    requires Referred(t, t, |f.newEntries|) && |f.buckets| == 1024 && t.newTable == map[]
    requires TriedFirst(t, f, |f.triedEntries|) && NewRead(t, f, |f.newEntries|)
    ensures var u := ReferRows(t, f, |f.buckets|);
            && TriedFirst(u, f, |f.triedEntries|) && NewRead(u, f, |f.newEntries|) && Split(u, |f.newEntries|)
            && RowsUsed(u, f, 1024) && u.h == t.h
  {
    ReferRowsUse(t, f, |f.buckets|);
    ReferRowsKeeps(t, f, |f.buckets|);
    var u := ReferRows(t, f, |f.buckets|);
    assert u.info.Keys == t.info.Keys;
    TriedFrame(t, u, f);
    NewFrame(t, u, f);
  }

  /** The same entry, but for its references and its place in the random order. */
  ghost predicate SameRead(i: AddrInfo, j: AddrInfo) {
    j == i.(nRefCount := j.nRefCount, nRandomPos := j.nRandomPos)
  }

  lemma {:induction false} TriedFrame(s: State, t: State, f: AddrFile)
    requires TriedFirst(s, f, |f.triedEntries|) && t.h == s.h && t.triedTable == s.triedTable
    requires forall id | id in s.info && s.info[id].fInTried :: id in t.info && SameRead(s.info[id], t.info[id])
    ensures TriedFirst(t, f, |f.triedEntries|)
  {
    forall j | 0 <= j < |f.triedEntries| && FirstTried(t.h, f, j) ensures TriedRead(t, f, j) {
      assert TriedRead(s, f, j);
      var id := s.triedTable[CellOf(s.h, f, j)];
      assert id in s.info && s.info[id].fInTried;
    }
  }

  lemma {:induction false} NewFrame(s: State, t: State, f: AddrFile)
    requires NewRead(s, f, |f.newEntries|) && forall id | id in s.info :: id in t.info && SameRead(s.info[id], t.info[id])
    ensures NewRead(t, f, |f.newEntries|)
  {
  }

  lemma {:induction false} PrunedHolds(s: State, t: State, f: AddrFile)
    requires Loading(s) && AllPruned(t, s) && ReadSoFar(s, f)
    ensures Recovered(t, s, f)
  {
    assert t.info.Keys == s.info.Keys - LooseIds(s);
    TablesPruned(s, t, f);
    forall j | 0 <= j < |f.newEntries|
      ensures (j in t.info <==> Refs(t, j) != {}) && (j in t.info ==> ReadFrom(t.info[j], f.newEntries[j], false))
    {
      assert NewEntryOk(s, j, LooseIds(s)) && Refs(t, j) == Refs(s, j);
    }
    forall id | id in t.info && !t.info[id].fInTried ensures 0 <= id < |f.newEntries| {
      assert EntrySlotted(t, id);
    }
  }

  lemma {:induction false} TablesPruned(s: State, t: State, f: AddrFile)
    requires Loading(s) && AllPruned(t, s) && TriedFirst(s, f, |f.triedEntries|)
    ensures t.h == s.h && t.newTable == s.newTable && t.triedTable == s.triedTable && TriedFirst(t, f, |f.triedEntries|)
  {
    forall id | id in s.info && s.info[id].fInTried ensures id in t.info && SameRead(s.info[id], t.info[id]) {
      assert id !in LooseIds(s);
    }
    TriedFrame(s, t, f);
  }
}
