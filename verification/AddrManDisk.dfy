/**
The file of the address manager: what is written of its state and what is rebuilt from it.

A file is given by its parts, in the order in which they are written; that the counts written in
front of the parts are their lengths is implicit.
*/
module AddrManDisk {
  import opened AddrManState
  import opened AddrManTables
  import Runs = AddrManRuns

  const BIT30 := 0x4000_0000

  /** What is written of an entry. */
  datatype Saved = Saved(addr: Address, source: nat, nLastSuccess: int, nAttempts: int)

  datatype AddrFile = AddrFile(nVersion: nat, nKey: nat, newEntries: seq<Saved>, triedEntries: seq<Saved>,
                               nUBuckets: int, buckets: seq<seq<int>>)

  /** Exclusive or with 2^30. */
  function FlipBit30(n: int): int {
    if n / BIT30 % 2 == 1 then n - BIT30 else n + BIT30
  }

  /** The number of new buckets the file says it has. */
  function BucketCount(f: AddrFile): int {
    if f.nVersion != 0 then FlipBit30(f.nUBuckets) else f.nUBuckets
  }

  /** As many buckets follow as the file says. */
  predicate Shaped(f: AddrFile) {
    |f.buckets| == if BucketCount(f) < 0 then 0 else BucketCount(f)
  }

  /** Can the positions in the new table be used? */
  predicate Usable(f: AddrFile) {
    f.nVersion == 1 && BucketCount(f) == NEW_BUCKET_COUNT
  }

  function Save(i: AddrInfo): Saved {
    Saved(i.addr, i.source, i.nLastSuccess, i.nAttempts)
  }

  function Loaded(r: Saved, fInTried: bool, nRandomPos: int): AddrInfo {
    AddrInfo(r.addr, r.source, r.nLastSuccess, 0, r.nAttempts, 0, fInTried, nRandomPos)
  }

  function Ip(r: Saved): nat { r.addr.service.ip }

  //////////////////////////////////////////////////////////////////////////////
  //
  // Loading
  //
  //////////////////////////////////////////////////////////////////////////////

  /** Add an entry under the next id to the indexes, to a counter and, if it is tried, to its cell. */
  function Insert(s: State, r: Saved, fInTried: bool): State {
    var id := s.nIdCount;
    var t := s.(nIdCount := id + 1, info := s.info[id := Loaded(r, fInTried, |s.random|)], addr := s.addr[Ip(r) := id],
                random := s.random + [id]);
    if fInTried then t.(triedTable := s.triedTable[s.h.TriedCell(r.addr.service) := id], nTried := s.nTried + 1)
    else t.(nNew := s.nNew + 1)
  }

  /** The new entries without a reference. */
  ghost function LooseIds(s: State): set<int> {
    set id | id in s.info && !s.info[id].fInTried && s.info[id].nRefCount == 0
  }

  /** Every entry is known by its address, and every known address is that of an entry, if not of only one. */
  ghost predicate Named(s: State) {
    && (forall ip {:trigger AddrIndexed(s, ip)} | ip in s.addr :: AddrIndexed(s, ip))
    && (forall id | id in s.info :: IpOf(s.info[id]) in s.addr)
  }

  /** Consistent, whatever new entries have no reference, and whether or not entries share an address. */
  ghost predicate Loading(s: State) {
    Slotted(s) && Named(s) && Tabled(s, LooseIds(s), 0)
  }

  /** No two entries have the same address. */
  ghost predicate Distinct(s: State) {
    forall x, y | x in s.info && y in s.info && x != y :: IpOf(s.info[x]) != IpOf(s.info[y])
  }

  /** An entry of the new table; if the file's positions cannot be used, it is placed by its source. */
  ghost function LoadNew(s: State, r: Saved, usable: bool): State {
    var t := Insert(s, r, false);
    var c := Runs.AskedCell(s.h, r.addr.service, r.source);
    if usable || c in t.newTable then t else Referenced(t, s.nIdCount, c)
  }

  /** An entry of the tried table, unless its cell is taken. */
  function LoadTried(s: State, r: Saved): State {
    if s.h.TriedCell(r.addr.service) in s.triedTable then s else Insert(s, r, true)
  }

  /** A reference to new entry `nIndex` from bucket `b`. */
  ghost function Refer(s: State, b: nat, nIndex: int, count: nat): State {
    if 0 <= nIndex < count && nIndex in s.info then
      var c := s.h.NewCell(ServiceOf(s.info[nIndex]), b);
      if c !in s.newTable && s.info[nIndex].nRefCount < NEW_BUCKETS_PER_ADDRESS then Referenced(s, nIndex, c) else s
    else s
  }

  ghost function LoadAllNew(h: Hasher, f: AddrFile, k: nat): State
    requires k <= |f.newEntries|
    decreases k
  {
    if k == 0 then Empty(h)
    else LoadNew(LoadAllNew(h, f, k - 1), f.newEntries[k - 1], Usable(f))
  }

  ghost function LoadAllTried(s: State, f: AddrFile, k: nat): State
    requires k <= |f.triedEntries|
    decreases k
  {
    if k == 0 then s else LoadTried(LoadAllTried(s, f, k - 1), f.triedEntries[k - 1])
  }

  ghost function ReferRow(s: State, b: nat, row: seq<int>, count: nat): State
    decreases |row|
  {
    if row == [] then s else Refer(ReferRow(s, b, row[..|row| - 1], count), b, row[|row| - 1], count)
  }

  ghost function ReferRows(s: State, f: AddrFile, b: nat): State
    requires b <= |f.buckets|
    decreases b
  {
    if b == 0 then s else ReferRow(ReferRows(s, f, b - 1), b - 1, f.buckets[b - 1], |f.newEntries|)
  }

  /** Delete the new entries without a reference, of those below `k`. */
  ghost function Prune(s: State, k: nat): (t: State)
    requires Slotted(s)
    ensures Slotted(t)
    decreases k
  {
    if k == 0 then s
    else
      var t := Prune(s, k - 1);
      if k - 1 in LooseIds(t) then
        DeleteSlotted(t, k - 1);
        Delete(t, k - 1)
      else t
  }

  /** The file's addresses are all different, and its times are those of usable entries. */
  ghost predicate Sound(f: AddrFile) {
    && (forall i, j | 0 <= i < j < |f.newEntries| :: Ip(f.newEntries[i]) != Ip(f.newEntries[j]))
    && (forall i, j | 0 <= i < j < |f.triedEntries| :: Ip(f.triedEntries[i]) != Ip(f.triedEntries[j]))
    && (forall i, j | 0 <= i < |f.newEntries| && 0 <= j < |f.triedEntries| :: Ip(f.newEntries[i]) != Ip(f.triedEntries[j]))
    && (forall i | 0 <= i < |f.newEntries| :: f.newEntries[i].nLastSuccess >= 0)
    && (forall j | 0 <= j < |f.triedEntries| :: f.triedEntries[j].nLastSuccess > 0)
  }

  //////////////////////////////////////////////////////////////////////////////
  //
  // Every step of loading keeps consistency
  //
  //////////////////////////////////////////////////////////////////////////////

  /** Consistency determines which entries have no reference. */
  lemma {:induction false} LooseAre(s: State, loose: set<int>, missing: int)
    requires Tabled(s, loose, missing)
    ensures loose == LooseIds(s)
  {
    forall id ensures id in loose <==> id in LooseIds(s) {
      if id in s.info && !s.info[id].fInTried {
        assert NewEntryOk(s, id, loose);
      }
      assert id in loose ==> id in NewIds(s);
    }
  }

  lemma {:induction false} InsertSlotted(s: State, r: Saved, fInTried: bool)
    requires Slotted(s)
    ensures s.nIdCount !in s.info && Slotted(Insert(s, r, fInTried))
  {
    assert s.nIdCount in s.info ==> EntrySlotted(s, s.nIdCount);
    var id, t := s.nIdCount, Insert(s, r, fInTried);
    forall x | x in t.info ensures EntrySlotted(t, x) {
      assert x != id ==> EntrySlotted(s, x);
    }
    forall p | 0 <= p < |t.random| ensures SlotIndexed(t, p) {
      assert p < |s.random| ==> SlotIndexed(s, p);
    }
  }

  /** An address that is there already is known as that of the entry added last. */
  lemma {:induction false} InsertNamed(s: State, r: Saved, fInTried: bool)
    requires Named(s) && s.nIdCount !in s.info
    ensures Named(Insert(s, r, fInTried))
  {
    var t := Insert(s, r, fInTried);
    forall ip | ip in t.addr ensures AddrIndexed(t, ip) {
      assert ip != Ip(r) ==> AddrIndexed(s, ip);
    }
  }

  lemma {:induction false} InsertKeeps(s: State, r: Saved, fInTried: bool)
    requires Loading(s) && (fInTried ==> s.h.TriedCell(r.addr.service) !in s.triedTable)
    ensures s.nIdCount !in s.info && Loading(Insert(s, r, fInTried))
  {
    InsertSlotted(s, r, fInTried);
    InsertNamed(s, r, fInTried);
    InsertTried(s, r, fInTried);
    var t, loose := Insert(s, r, fInTried), if fInTried then LooseIds(s) else LooseIds(s) + {s.nIdCount};
    InsertNewTable(s, t, r, fInTried, loose);
    InsertNewCount(s, r, fInTried);
    LooseAre(t, loose, 0);
  }

  lemma {:induction false} InsertTried(s: State, r: Saved, fInTried: bool)
    requires Loading(s) && s.nIdCount !in s.info && (fInTried ==> s.h.TriedCell(r.addr.service) !in s.triedTable)
    ensures var t := Insert(s, r, fInTried); TriedConsistent(t) && t.nTried == |TriedIds(t)|
  {
    var t := Insert(s, r, fInTried);
    assert TriedIds(t) == if fInTried then TriedIds(s) + {s.nIdCount} else TriedIds(s);
    forall c | c in t.triedTable ensures TriedCellOk(t, c) {
      assert c in s.triedTable ==> TriedCellOk(s, c);
    }
    forall id | id in t.info && t.info[id].fInTried ensures TriedEntryOk(t, id) {
      assert id in s.info ==> TriedEntryOk(s, id);
    }
  }

  lemma {:induction false} InsertNewTable(s: State, t: State, r: Saved, fInTried: bool, loose: set<int>)
    requires Loading(s) && s.nIdCount !in s.info && t == Insert(s, r, fInTried)
    requires loose == if fInTried then LooseIds(s) else LooseIds(s) + {s.nIdCount}
    ensures NewConsistent(t, loose)
  {
    InsertCells(s, r, fInTried);
    InsertRefs(s, t, s.nIdCount, loose);
    assert loose <= NewIds(t);
  }

  lemma {:induction false} InsertNewCount(s: State, r: Saved, fInTried: bool)
    requires s.nNew == |NewIds(s)| && s.nIdCount !in s.info
    ensures var t := Insert(s, r, fInTried); t.nNew == |NewIds(t)|
  {
    InsertNewIds(s, r, fInTried);
  }

  lemma {:induction false} InsertNewIds(s: State, r: Saved, fInTried: bool)
    requires s.nIdCount !in s.info
    ensures NewIds(Insert(s, r, fInTried)) == if fInTried then NewIds(s) else NewIds(s) + {s.nIdCount}
  {
    var t, id := Insert(s, r, fInTried), s.nIdCount;
    forall x ensures x in NewIds(t) <==> x in (if fInTried then NewIds(s) else NewIds(s) + {id}) {
    }
  }

  lemma {:induction false} InsertCells(s: State, r: Saved, fInTried: bool)
    requires Loading(s) && s.nIdCount !in s.info
    ensures var t := Insert(s, r, fInTried);
            && (forall c {:trigger NewCellOk(t, c)} | c in t.newTable :: NewCellOk(t, c))
            && forall c | c in s.newTable :: s.newTable[c] != s.nIdCount
  {
    var t := Insert(s, r, fInTried);
    forall c | c in t.newTable ensures NewCellOk(t, c) && s.newTable[c] != s.nIdCount {
      assert NewCellOk(s, c);
    }
  }

  /** An entry that is added has no references, and the others keep theirs. */
  lemma {:induction false} InsertRefs(s: State, t: State, id: int, loose: set<int>)
    requires Loading(s) && id !in s.info && t.newTable == s.newTable && t.info.Keys == s.info.Keys + {id}
    requires (forall c | c in s.newTable :: s.newTable[c] != id) && forall x | x in s.info :: t.info[x] == s.info[x]
    requires t.info[id].nRefCount == 0 && loose == if t.info[id].fInTried then LooseIds(s) else LooseIds(s) + {id}
    ensures forall x {:trigger NewEntryOk(t, x, loose)} | x in t.info && !t.info[x].fInTried :: NewEntryOk(t, x, loose)
  {
    assert Refs(t, id) == {};
    forall x | x in t.info && !t.info[x].fInTried ensures NewEntryOk(t, x, loose) {
      if x != id {
        assert NewEntryOk(s, x, LooseIds(s));
        assert Refs(t, x) == Refs(s, x);
      }
    }
  }

  /** A reference to a new entry in a free cell. */
  lemma {:induction false} ReferenceKeeps(s: State, id: int, c: Cell)
    requires Loading(s) && id in s.info && !s.info[id].fInTried && c !in s.newTable
    requires s.info[id].nRefCount < NEW_BUCKETS_PER_ADDRESS
    requires 0 <= c.bucket < NEW_BUCKET_COUNT && c == s.h.NewCell(ServiceOf(s.info[id]), c.bucket)
    ensures Loading(Referenced(s, id, c))
  {
    var t := Referenced(s, id, c);
    ReferencedTabled(s, id, c, LooseIds(s), 0);
    LooseAre(t, LooseIds(s) - {id}, 0);
    forall x | x in t.info ensures EntrySlotted(t, x) {
      assert EntrySlotted(s, x);
    }
    forall p | 0 <= p < |t.random| ensures SlotIndexed(t, p) {
      assert SlotIndexed(s, p);
    }
    forall ip | ip in t.addr ensures AddrIndexed(t, ip) {
      assert AddrIndexed(s, ip);
    }
  }

  /** The addresses of `s` are among the first `k` of the new entries of the file, or its first `l` tried ones. */
  ghost predicate FromFile(s: State, f: AddrFile, k: nat, l: nat)
    requires k <= |f.newEntries| && l <= |f.triedEntries|
  {
    forall id {:trigger InFile(f, k, l, IpOf(s.info[id]))} | id in s.info :: InFile(f, k, l, IpOf(s.info[id]))
  }

  ghost predicate InFile(f: AddrFile, k: nat, l: nat, ip: nat)
    requires k <= |f.newEntries| && l <= |f.triedEntries|
  {
    || (exists i :: 0 <= i < k && Ip(f.newEntries[i]) == ip)
    || (exists j :: 0 <= j < l && Ip(f.triedEntries[j]) == ip)
  }

  /** What a file with different addresses and usable times is read into. */
  ghost predicate Fine(s: State) {
    TimesOk(s) && Distinct(s)
  }

  /** The entries with ids below `n` are new, the others tried. */
  ghost predicate Split(s: State, n: nat) {
    forall id | id in s.info :: s.info[id].fInTried <==> id >= n
  }

  /** The state after loading `k` new entries. */
  ghost predicate NewLoaded(s: State, h: Hasher, f: AddrFile, k: nat)
    requires k <= |f.newEntries|
  {
    && Loading(s) && FromFile(s, f, k, 0) && (Sound(f) ==> Fine(s))
    && s.h == h && s.nIdCount == s.nNew == k && s.triedTable == map[] && s.nTried == 0
    && forall id :: id in s.info ==> 0 <= id < k && !s.info[id].fInTried
  }

  lemma {:induction false} LoadNewKeeps(s: State, h: Hasher, f: AddrFile, k: nat)
    requires 0 < k <= |f.newEntries| && NewLoaded(s, h, f, k - 1)
    ensures NewLoaded(LoadNew(s, f.newEntries[k - 1], Usable(f)), h, f, k)
  {
    var r := f.newEntries[k - 1];
    InsertKeeps(s, r, false);
    var t := Insert(s, r, false);
    InsertFromFile(s, f, k - 1, 0, r, false);
    var c := Runs.AskedCell(h, r.addr.service, r.source);
    if !Usable(f) && c !in t.newTable {
      ReferenceKeeps(t, k - 1, c);
      ReferencedFine(t, k - 1, c, f, k, 0);
    }
  }

  /** A reference changes no address and no time. */
  lemma {:induction false} ReferencedFine(s: State, id: int, c: Cell, f: AddrFile, k: nat, l: nat)
    requires id in s.info && k <= |f.newEntries| && l <= |f.triedEntries|
    ensures var t := Referenced(s, id, c);
            (FromFile(s, f, k, l) ==> FromFile(t, f, k, l)) && (Fine(s) ==> Fine(t))
  {
    var t := Referenced(s, id, c);
    assert forall x | x in s.info :: IpOf(t.info[x]) == IpOf(s.info[x]);
  }

  /** One more entry comes from the file, and if that is sound its address is a new one. */
  lemma {:induction false} InsertFromFile(s: State, f: AddrFile, k: nat, l: nat, r: Saved, fInTried: bool)
    requires k <= |f.newEntries| && l <= |f.triedEntries| && FromFile(s, f, k, l) && s.nIdCount !in s.info
    requires if fInTried then l < |f.triedEntries| && r == f.triedEntries[l]
             else k < |f.newEntries| && l == 0 && r == f.newEntries[k]
    ensures if fInTried then FromFile(Insert(s, r, true), f, k, l + 1) else FromFile(Insert(s, r, false), f, k + 1, l)
    ensures Sound(f) && Fine(s) ==> Fine(Insert(s, r, fInTried))
  {
    var t := Insert(s, r, fInTried);
    forall id | id in t.info
      ensures if fInTried then InFile(f, k, l + 1, IpOf(t.info[id])) else InFile(f, k + 1, l, IpOf(t.info[id]))
    {
      if id in s.info {
        assert InFile(f, k, l, IpOf(s.info[id]));
      }
    }
    if Sound(f) {
      forall id | id in s.info ensures IpOf(s.info[id]) != Ip(r) {
        assert InFile(f, k, l, IpOf(s.info[id]));
      }
    }
  }

  lemma {:induction false} EmptyLoads(h: Hasher, f: AddrFile)
    ensures NewLoaded(Empty(h), h, f, 0)
  {
    var e := Empty(h);
    assert LooseIds(e) == {} && NewIds(e) == {} && TriedIds(e) == {};
  }

  lemma {:induction false} AllNewKeeps(h: Hasher, f: AddrFile, k: nat)
    requires k <= |f.newEntries|
    ensures NewLoaded(LoadAllNew(h, f, k), h, f, k)
    decreases k
  {
    if k == 0 {
      EmptyLoads(h, f);
    } else {
      AllNewKeeps(h, f, k - 1);
      LoadNewKeeps(LoadAllNew(h, f, k - 1), h, f, k);
    }
  }

  /** The state after loading `k` tried entries on top of the new ones. */
  ghost predicate TriedLoaded(t: State, s: State, f: AddrFile, k: nat)
    requires k <= |f.triedEntries|
  {
    && Loading(t) && FromFile(t, f, |f.newEntries|, k) && (Sound(f) ==> Fine(t)) && Split(t, |f.newEntries|)
    && t.h == s.h && t.newTable == s.newTable && t.nIdCount >= |f.newEntries|
  }

  lemma {:induction false} LoadTriedKeeps(t: State, s: State, f: AddrFile, k: nat)
    requires 0 < k <= |f.triedEntries| && TriedLoaded(t, s, f, k - 1)
    ensures TriedLoaded(LoadTried(t, f.triedEntries[k - 1]), s, f, k)
  {
    var r := f.triedEntries[k - 1];
    if t.h.TriedCell(r.addr.service) !in t.triedTable {
      InsertKeeps(t, r, true);
      InsertFromFile(t, f, |f.newEntries|, k - 1, r, true);
    } else {
      forall id | id in t.info ensures InFile(f, |f.newEntries|, k, IpOf(t.info[id])) {
        assert InFile(f, |f.newEntries|, k - 1, IpOf(t.info[id]));
      }
    }
  }

  lemma {:induction false} AllTriedKeeps(s: State, f: AddrFile, k: nat)
    requires k <= |f.triedEntries| && TriedLoaded(s, s, f, 0)
    ensures TriedLoaded(LoadAllTried(s, f, k), s, f, k)
    decreases k
  {
    if k > 0 {
      AllTriedKeeps(s, f, k - 1);
      LoadTriedKeeps(LoadAllTried(s, f, k - 1), s, f, k);
    }
  }

  /** Two states with the same entries, but for their numbers of references. */
  ghost predicate SameButRefs(m: map<int, AddrInfo>, n: map<int, AddrInfo>) {
    n.Keys == m.Keys && forall id | id in m :: n[id] == m[id].(nRefCount := n[id].nRefCount)
  }

  /** Referring to entries changes nothing but the new table and the numbers of references. */
  ghost predicate Referred(t: State, s: State, count: nat) {
    && Loading(t) && Split(t, count) && SameButRefs(s.info, t.info)
    && t == s.(info := t.info, newTable := t.newTable)
  }

  lemma {:induction false} ReferKeeps(t: State, s: State, b: nat, nIndex: int, count: nat)
    requires Referred(t, s, count) && b < NEW_BUCKET_COUNT
    ensures Referred(Refer(t, b, nIndex, count), s, count)
  {
    if 0 <= nIndex < count && nIndex in t.info {
      var c := t.h.NewCell(ServiceOf(t.info[nIndex]), b);
      if c !in t.newTable && t.info[nIndex].nRefCount < NEW_BUCKETS_PER_ADDRESS {
        ReferenceKeeps(t, nIndex, c);
      }
    }
  }

  lemma {:induction false} ReferRowKeeps(t: State, s: State, b: nat, row: seq<int>, count: nat)
    requires Referred(t, s, count) && b < NEW_BUCKET_COUNT
    ensures Referred(ReferRow(t, b, row, count), s, count)
    decreases |row|
  {
    if row != [] {
      var front := row[..|row| - 1];
      ReferRowKeeps(t, s, b, front, count);
      ReferKeeps(ReferRow(t, b, front, count), s, b, row[|row| - 1], count);
    }
  }

  lemma {:induction false} ReferRowsKeeps(s: State, f: AddrFile, b: nat)
    requires Referred(s, s, |f.newEntries|) && b <= |f.buckets| <= NEW_BUCKET_COUNT
    ensures Referred(ReferRows(s, f, b), s, |f.newEntries|)
    decreases b
  {
    if b > 0 {
      ReferRowsKeeps(s, f, b - 1);
      ReferRowKeeps(ReferRows(s, f, b - 1), s, b - 1, f.buckets[b - 1], |f.newEntries|);
    }
  }

  //////////////////////////////////////////////////////////////////////////////
  //
  // Pruning
  //
  //////////////////////////////////////////////////////////////////////////////

  /** The addresses of the entries below `k` without a reference. */
  ghost function LooseIps(s: State, k: nat): set<nat> {
    set id | id in LooseIds(s) && id < k :: IpOf(s.info[id])
  }

  /** Of the entries without a reference, those below `k` have been deleted, and their addresses are forgotten. */
  ghost predicate Pruned(t: State, s: State, k: nat) {
    && Slotted(t) && Tabled(t, LooseIds(t), 0) && t.h == s.h && t.newTable == s.newTable && t.triedTable == s.triedTable
    && t.addr == s.addr - LooseIps(s, k)
    && (forall id :: id in t.info <==> id in s.info && !(id in LooseIds(s) && id < k))
    && (forall id :: id in LooseIds(t) <==> id in LooseIds(s) && id >= k)
    && SameButPositions(Without(s.info, LooseIds(s) - LooseIds(t)), t.info)
  }

  function Without(m: map<int, AddrInfo>, ids: set<int>): map<int, AddrInfo> {
    m - ids
  }

  lemma {:induction false} PruneOne(t: State, s: State, k: nat)
    requires 0 < k && Pruned(t, s, k - 1) && k - 1 in LooseIds(t)
    ensures EntrySlotted(t, k - 1) && SlotIndexed(t, |t.random| - 1) && Pruned(Delete(t, k - 1), s, k)
  {
    DeleteSlotted(t, k - 1);
    DeleteTabled(t, k - 1, LooseIds(t), 0);
    LooseAre(Delete(t, k - 1), LooseIds(t) - {k - 1}, 0);
    PrunedIps(t, s, k);
    PrunedEntries(t, s, Delete(t, k - 1), k);
  }

  lemma {:induction false} PrunedEntries(t: State, s: State, u: State, k: nat)
    requires 0 < k && k - 1 in LooseIds(t) && LooseIds(u) == LooseIds(t) - {k - 1}
    requires u.info.Keys == t.info.Keys - {k - 1} && SameButPositions(t.info - {k - 1}, u.info)
    requires forall id :: id in t.info <==> id in s.info && !(id in LooseIds(s) && id < k - 1)
    requires forall id :: id in LooseIds(t) <==> id in LooseIds(s) && id >= k - 1
    requires SameButPositions(Without(s.info, LooseIds(s) - LooseIds(t)), t.info)
    ensures forall id :: id in u.info <==> id in s.info && !(id in LooseIds(s) && id < k)
    ensures forall id :: id in LooseIds(u) <==> id in LooseIds(s) && id >= k
    ensures SameButPositions(Without(s.info, LooseIds(s) - LooseIds(u)), u.info)
  {
    forall x | x in u.info ensures u.info[x] == s.info[x].(nRandomPos := u.info[x].nRandomPos) {
      assert x in t.info - {k - 1};
      assert x in Without(s.info, LooseIds(s) - LooseIds(t));
    }
    assert Without(s.info, LooseIds(s) - LooseIds(u)).Keys == u.info.Keys;
  }

  lemma {:induction false} PrunedIps(t: State, s: State, k: nat)
    requires 0 < k && Pruned(t, s, k - 1) && k - 1 in LooseIds(t)
    ensures t.addr - {IpOf(t.info[k - 1])} == s.addr - LooseIps(s, k)
  {
    var id := k - 1;
    assert id in Without(s.info, LooseIds(s) - LooseIds(t));
    assert IpOf(t.info[id]) == IpOf(s.info[id]);
    forall ip ensures ip in LooseIps(s, k) <==> ip in LooseIps(s, id) || ip == IpOf(s.info[id]) {
      if ip in LooseIps(s, k) {
        var x :| x in LooseIds(s) && x < k && IpOf(s.info[x]) == ip;
        assert x < id ==> ip in LooseIps(s, id);
      }
    }
  }

  lemma {:induction false} NonePruned(t: State, s: State, k: nat)
    requires 0 < k && Pruned(t, s, k - 1) && k - 1 !in LooseIds(t)
    ensures Pruned(t, s, k)
  {
    assert LooseIps(s, k) == LooseIps(s, k - 1);
  }

  lemma {:induction false} PruneNone(s: State)
    requires Loading(s)
    ensures Pruned(s, s, 0)
  {
    forall id | id in LooseIds(s) ensures id >= 0 {
      assert EntrySlotted(s, id);
    }
    assert Without(s.info, {}) == s.info;
    assert LooseIps(s, 0) == {};
  }

  lemma {:induction false} PruneKeeps(s: State, k: nat)
    requires Loading(s)
    ensures Pruned(Prune(s, k), s, k)
    decreases k
  {
    if k == 0 {
      PruneNone(s);
    } else {
      PruneKeeps(s, k - 1);
      var t := Prune(s, k - 1);
      if k - 1 in LooseIds(t) {
        PruneOne(t, s, k);
      } else {
        NonePruned(t, s, k);
      }
    }
  }

  //////////////////////////////////////////////////////////////////////////////
  //
  // Unserialize
  //
  //////////////////////////////////////////////////////////////////////////////

  /** What is read, before entries without a reference are pruned. */
  ghost function ReadIn(net: Net, f: AddrFile): State {
    var t := LoadAllTried(LoadAllNew(Hasher(net, f.nKey), f, |f.newEntries|), f, |f.triedEntries|);
    if Usable(f) then ReferRows(t, f, |f.buckets|) else t
  }

  ghost function Restore(net: Net, f: AddrFile): State
    requires Shaped(f)
  {
    ReadInLoads(net, f);
    Prune(ReadIn(net, f), ReadIn(net, f).nIdCount)
  }

  /** Whatever the file, its version and number of buckets, all but the addresses fits together. */
  lemma {:induction false} ReadInLoads(net: Net, f: AddrFile)
    requires Shaped(f)
    ensures Loading(ReadIn(net, f)) && (Sound(f) ==> Fine(ReadIn(net, f)))
  {
    var h := Hasher(net, f.nKey);
    var s := LoadAllNew(h, f, |f.newEntries|);
    AllNewKeeps(h, f, |f.newEntries|);
    AllTriedKeeps(s, f, |f.triedEntries|);
    if Usable(f) {
      ReferRowsKeeps(LoadAllTried(s, f, |f.triedEntries|), f, |f.buckets|);
    }
  }

  /** An entry that is kept shares its address with no other, and has usable times. */
  ghost predicate KeptAlone(s: State, id: int)
    requires id in s.info
  {
    TimesFine(s.info[id]) && forall x | x in s.info && x != id :: IpOf(s.info[x]) != IpOf(s.info[id])
  }

  /**
  A file is made into a state that satisfies the invariant if and only if, of the entries read,
  each that has a reference or is tried is the only one with its address and has usable times.
  Entries without a reference may share an address among themselves: they are pruned.
  */
  lemma {:induction false} RestoreExact(net: Net, f: AddrFile)
    requires Shaped(f)
    ensures var s := ReadIn(net, f);
            Inv(Restore(net, f)) <==> forall id | id in s.info && id !in LooseIds(s) :: KeptAlone(s, id)
  {
    var s := ReadIn(net, f);
    ReadInLoads(net, f);
    PruneKeeps(s, s.nIdCount);
    NoneLoose(Prune(s, s.nIdCount), s);
    if forall id | id in s.info && id !in LooseIds(s) :: KeptAlone(s, id) {
      AloneIndexed(Prune(s, s.nIdCount), s);
    }
    if Inv(Prune(s, s.nIdCount)) {
      forall id | id in s.info && id !in LooseIds(s) ensures KeptAlone(s, id) {
        IndexedAlone(Prune(s, s.nIdCount), s, id);
      }
    }
  }

  /** All that is kept is as it was read, and nothing kept is without a reference. */
  ghost predicate AllPruned(t: State, s: State) {
    && Pruned(t, s, s.nIdCount) && LooseIds(t) == {}
    && t.info.Keys == s.info.Keys - LooseIds(s)
    && (forall id | id in t.info :: t.info[id] == s.info[id].(nRandomPos := t.info[id].nRandomPos))
    && forall id | id in LooseIds(s) :: IpOf(s.info[id]) !in t.addr
  }

  lemma {:induction false} NoneLoose(t: State, s: State)
    requires Slotted(s) && Pruned(t, s, s.nIdCount)
    ensures AllPruned(t, s)
  {
    forall id | id in LooseIds(s) ensures id < s.nIdCount && IpOf(s.info[id]) in LooseIps(s, s.nIdCount) {
      assert EntrySlotted(s, id);
    }
    forall id ensures id !in LooseIds(t) {
    }
    forall id | id in t.info ensures t.info[id] == s.info[id].(nRandomPos := t.info[id].nRandomPos) {
      assert id in Without(s.info, LooseIds(s) - LooseIds(t));
    }
  }

  lemma {:induction false} AloneIndexed(t: State, s: State)
    requires Loading(s) && AllPruned(t, s) && forall id | id in s.info && id !in LooseIds(s) :: KeptAlone(s, id)
    ensures Inv(t)
  {
    forall id | id in t.info ensures EntryIndexed(t, id) && TimesFine(t.info[id]) {
      assert EntrySlotted(t, id) && KeptAlone(s, id) && AddrIndexed(s, IpOf(s.info[id]));
      assert IpOf(s.info[id]) !in LooseIps(s, s.nIdCount);
    }
    forall ip | ip in t.addr ensures AddrIndexed(t, ip) {
      assert AddrIndexed(s, ip);
      var id := s.addr[ip];
      assert EntrySlotted(s, id) && ip !in LooseIps(s, s.nIdCount);
      assert id in s.info.Keys - LooseIds(s);
    }
  }

  lemma {:induction false} IndexedAlone(t: State, s: State, id: int)
    requires AllPruned(t, s) && Inv(t) && id in s.info && id !in LooseIds(s)
    ensures KeptAlone(s, id)
  {
    assert EntryIndexed(t, id) && TimesFine(t.info[id]);
    forall x | x in s.info && x != id ensures IpOf(s.info[x]) != IpOf(s.info[id]) {
      if x !in LooseIds(s) {
        assert EntryIndexed(t, x);
      }
    }
  }

  /** In particular, so is a file whose addresses differ and whose times are usable. */
  lemma {:induction false} RestoreKeeps(net: Net, f: AddrFile)
    requires Shaped(f) && Sound(f)
    ensures Inv(Restore(net, f))
  {
    ReadInLoads(net, f);
    RestoreExact(net, f);
  }

  /** A file without usable positions that holds one new entry twice: the second is pruned and takes the address with it. */
  function Twice(r: Saved): AddrFile {
    AddrFile(0, 0, [r, r], [], 0, [])
  }

  lemma {:induction false} TwiceForgotten(net: Net, r: Saved)
    ensures Shaped(Twice(r)) && !Inv(Restore(net, Twice(r)))
  {
    var h, f := Hasher(net, 0), Twice(r);
    RestoreExact(net, f);
    var s := LoadNew(Empty(h), r, false);
    var t := LoadNew(s, r, false);
    assert LoadAllNew(h, f, 0) == Empty(h);
    assert LoadAllNew(h, f, 1) == s;
    assert LoadAllNew(h, f, 2) == t;
    assert ReadIn(net, f) == t;
    assert 0 in t.info && 1 in t.info && 0 !in LooseIds(t) && !KeptAlone(t, 0);
  }
}
