/**
The address manager's own consistency check, and what exactly it decides.
*/
module AddrManCheck {
  import opened AddrManState
  import opened AddrManRoundTrip
  import opened SetFacts
  import Runs = AddrManRuns
  import AddrMan

  //////////////////////////////////////////////////////////////////////////////
  //
  // What the check decides
  //
  //////////////////////////////////////////////////////////////////////////////

  /** The entry is known by its address and is in its place in the random order. */
  ghost predicate EntryKnown(s: State, id: int)
    requires id in s.info
  {
    IpOf(s.info[id]) in s.addr && s.addr[IpOf(s.info[id])] == id && InSlot(s, id)
  }

  /** Everything in Inv but two things the check does not look at: addresses whose entry is gone, and the next id. */
  ghost predicate Passes(s: State) {
    && (forall id {:trigger EntryKnown(s, id)} | id in s.info :: EntryKnown(s, id))
    && (forall p {:trigger SlotIndexed(s, p)} | 0 <= p < |s.random| :: SlotIndexed(s, p))
    && Tabled(s, {}, 0) && TimesOk(s)
  }

  lemma {:induction false} InvIsPasses(s: State)
    ensures Inv(s) <==> && Passes(s) && (forall ip | ip in s.addr :: AddrIndexed(s, ip))
                        && forall id | id in s.info :: 0 <= id < s.nIdCount
  {
    if Inv(s) {
      forall id | id in s.info ensures EntryKnown(s, id) && 0 <= id < s.nIdCount {
        assert EntryIndexed(s, id);
      }
    }
    if Passes(s) && (forall ip | ip in s.addr :: AddrIndexed(s, ip)) && forall id | id in s.info :: 0 <= id < s.nIdCount {
      forall id | id in s.info ensures EntryIndexed(s, id) {
        assert EntryKnown(s, id);
      }
    }
  }

  /** Looking up an address that is missing adds it for the id 0, which makes entry 0 known if there is one. */
  ghost function Amended(s: State): State {
    if 0 in s.info && IpOf(s.info[0]) !in s.addr then s.(addr := s.addr[IpOf(s.info[0]) := 0]) else s
  }

  lemma {:induction false} InvIsAmended(s: State)
    requires Inv(s)
    ensures Amended(s) == s && Passes(s)
  {
    InvIsPasses(s);
    assert 0 in s.info ==> EntryKnown(s, 0);
  }

  /**
  Zero exactly if there is a key and the state, with a missing address of entry 0 added, has all
  that Passes demands; then that is the state afterwards.
  */
  method Check_(m: AddrMan.CAddrMan) returns (err: int)
    requires m.Shaped()
    modifies m
    ensures err == 0 <==> m.nKey != 0 && Passes(Amended(old(m.S())))
    ensures err == 0 ==> m.S() == Amended(old(m.S()))
    ensures Inv(old(m.S())) && m.nKey != 0 ==> err == 0 && m.S() == old(m.S())
  {
    ghost var s := m.S();
    if Inv(s) {
      InvIsAmended(s);
    }
    PassesParts(s);
    if |m.vRandom| != m.nTried + m.nNew {
      return -7;
    }
    var setTried, mapNew;
    err, setTried, mapNew := CheckEntries(m, s);
    if err != 0 {
      return;
    }
    if |setTried| != m.nTried {
      return -9;
    }
    assert |mapNew| == |mapNew.Keys|;
    if |mapNew| != m.nNew {
      return -10;
    }
    InRange(m);
    SortedPositive(s, setTried, mapNew);
    err, setTried := CheckTriedTable(m, setTried, m.S());
    if err != 0 {
      return;
    }
    err, mapNew := CheckNewTable(m, mapNew, m.S());
    if err != 0 {
      return;
    }
    if |setTried| > 0 {
      return -13;
    }
    assert setTried == {};
    if |mapNew| > 0 {
      return -15;
    }
    assert mapNew == map[];
    if m.nKey == 0 {
      return -16;
    }
    return 0;
  }

  /** The parts of Passes, in the order in which they are looked at. */
  lemma {:induction false} PassesParts(s: State)
    ensures Passes(Amended(s)) <==>
            && |s.random| == s.nTried + s.nNew && EntriesFine(Amended(s))
            && s.nTried == |TriedIds(s)| && s.nNew == |NewIds(s)|
            && TriedPlaced(Amended(s)) && NewPlaced(Amended(s))
    ensures TriedIds(Amended(s)) == TriedIds(s) && NewIds(Amended(s)) == NewIds(s)
  {
    PartsPass(Amended(s));
  }

  lemma {:induction false} PartsPass(s: State)
    ensures Passes(s) <==>
            && |s.random| == s.nTried + s.nNew && EntriesFine(s)
            && s.nTried == |TriedIds(s)| && s.nNew == |NewIds(s)| && TriedPlaced(s) && NewPlaced(s)
  {
    Partition(s);
    if Passes(s) {
      PassesEntries(s);
    }
    if |s.random| == |s.info| && s.nTried == |TriedIds(s)| && s.nNew == |NewIds(s)| {
      if EntriesFine(s) && TriedPlaced(s) && NewPlaced(s) {
        PlacedPasses(s);
      }
    }
  }

  lemma {:induction false} Partition(s: State)
    ensures |s.info| == |TriedIds(s)| + |NewIds(s)|
  {
    assert TriedIds(s) + NewIds(s) == s.info.Keys && TriedIds(s) !! NewIds(s);
    assert |s.info| == |s.info.Keys|;
  }

  lemma {:induction false} PlacedPasses(s: State)
    requires |s.random| == |s.info| && s.nTried == |TriedIds(s)| && s.nNew == |NewIds(s)|
    requires EntriesFine(s) && TriedPlaced(s) && NewPlaced(s)
    ensures Passes(s)
  {
    SlotsFilled(s);
    EntriesTabled(s);
  }

  lemma {:induction false} PassesEntries(s: State)
    requires Passes(s)
    ensures |s.random| == |s.info| && EntriesFine(s) && TriedPlaced(s) && NewPlaced(s)
  {
    forall id | id in s.info ensures InSlot(s, id) && EntryFine(s, id) {
      assert EntryKnown(s, id);
      assert if s.info[id].fInTried then TriedEntryOk(s, id) else NewEntryOk(s, id, {});
    }
    forall id | id in s.info && s.info[id].fInTried ensures Seated(s, id) {
      assert TriedEntryOk(s, id);
    }
    forall id | id in s.info && !s.info[id].fInTried ensures Counted(s, id) {
      assert NewEntryOk(s, id, {});
    }
    Runs.SlotsCount(s);
  }

  /** If there are as many slots as entries and each entry is in its slot, each slot is that of an entry. */
  lemma {:induction false} SlotsFilled(s: State)
    requires |s.random| == |s.info| && EntriesFine(s)
    ensures forall p {:trigger SlotIndexed(s, p)} | 0 <= p < |s.random| :: SlotIndexed(s, p)
  {
    var listed := set x | x in s.random;
    forall id | id in s.info ensures InSlot(s, id) {
      assert EntryFine(s, id);
    }
    forall id | id in s.info.Keys ensures id in listed {
      assert InSlot(s, id);
    }
    ElementsSize(s.random, listed);
    SubsetSize(s.info.Keys, listed);
    assert |s.info| == |s.info.Keys|;
    forall p | 0 <= p < |s.random| ensures SlotIndexed(s, p) {
      assert s.random[p] in listed;
      assert InSlot(s, s.random[p]);
    }
  }

  lemma {:induction false} EntriesTabled(s: State)
    requires EntriesFine(s) && TriedPlaced(s) && NewPlaced(s)
    ensures TriedConsistent(s) && NewConsistent(s, {}) && TimesOk(s)
    ensures forall id {:trigger EntryKnown(s, id)} | id in s.info :: EntryKnown(s, id)
  {
    forall id | id in s.info ensures EntryKnown(s, id) && TimesFine(s.info[id]) {
      assert EntryFine(s, id);
    }
    forall id | id in s.info && s.info[id].fInTried ensures TriedEntryOk(s, id) {
      assert EntryFine(s, id) && Seated(s, id);
    }
    forall id | id in s.info && !s.info[id].fInTried ensures NewEntryOk(s, id, {}) {
      assert EntryFine(s, id) && Counted(s, id);
    }
  }

  //////////////////////////////////////////////////////////////////////////////
  //
  // The entries
  //
  //////////////////////////////////////////////////////////////////////////////

  ghost predicate EntryFine(s: State, id: int)
    requires id in s.info
  {
    EntryKnown(s, id) && TimesFine(s.info[id]) && CountFine(s.info[id])
  }

  predicate CountFine(i: AddrInfo) {
    if i.fInTried then i.nRefCount == 0 else 0 < i.nRefCount <= NEW_BUCKETS_PER_ADDRESS
  }

  ghost predicate EntriesFine(s: State) {
    forall id {:trigger EntryFine(s, id)} | id in s.info :: EntryFine(s, id)
  }

  /** The number of references of an entry, and whether one that is tried has been a success. */
  method CheckCount(info: AddrInfo) returns (err: int)
    ensures err == 0 <==> CountFine(info) && (info.fInTried ==> info.nLastSuccess != 0)
  {
    if info.fInTried {
      if info.nLastSuccess == 0 {
        return -1;
      }
      if info.nRefCount != 0 {
        return -2;
      }
    } else {
      if info.nRefCount < 0 || info.nRefCount > NEW_BUCKETS_PER_ADDRESS {
        return -3;
      }
      if info.nRefCount == 0 {
        return -4;
      }
    }
    return 0;
  }

  /** Only a missing address of entry 0 can have been added to mapAddr so far. */
  ghost predicate AddrLooked(s: State, mapAddr: map<nat, int>) {
    mapAddr == s.addr || mapAddr == Amended(s).addr
  }

  /** Is the entry known by its address?  Asking adds an address that is missing, for the id 0. */
  method CheckAddr(m: AddrMan.CAddrMan, n: int, ghost s: State) returns (known: bool)
    requires n in s.info && m.S() == s.(addr := m.mapAddr) && AddrLooked(s, m.mapAddr)
    modifies m
    ensures m.S() == s.(addr := m.mapAddr)
    ensures known <==> IpOf(s.info[n]) in Amended(s).addr && Amended(s).addr[IpOf(s.info[n])] == n
    ensures known ==> m.mapAddr == if n == 0 then Amended(s).addr else old(m.mapAddr)
  {
    var ip := m.mapInfo[n].addr.service.ip;
    if ip !in m.mapAddr {
      m.mapAddr := m.mapAddr[ip := 0];
    }
    known := m.mapAddr[ip] == n;
  }

  /** Is the entry in its place in the random order, and are its times not negative? */
  predicate PlaceFine(info: AddrInfo, random: seq<int>, n: int) {
    && 0 <= info.nRandomPos < |random| && random[info.nRandomPos] == n
    && info.nLastTry >= 0 && info.nLastSuccess >= 0
  }

  lemma {:induction false} FineParts(s: State, n: int)
    requires n in s.info
    ensures EntryFine(Amended(s), n) <==>
            && CountFine(s.info[n]) && (s.info[n].fInTried ==> s.info[n].nLastSuccess != 0)
            && IpOf(s.info[n]) in Amended(s).addr && Amended(s).addr[IpOf(s.info[n])] == n
            && PlaceFine(s.info[n], s.random, n)
  {
  }

  /** One entry, as the check looks at it. */
  method CheckEntry(m: AddrMan.CAddrMan, n: int, ghost s: State) returns (err: int)
    requires n in s.info && m.S() == s.(addr := m.mapAddr) && AddrLooked(s, m.mapAddr)
    modifies m
    ensures m.S() == s.(addr := m.mapAddr)
    ensures err == 0 <==> EntryFine(Amended(s), n)
    ensures err == 0 ==> m.mapAddr == if n == 0 then Amended(s).addr else old(m.mapAddr)
  {
    FineParts(s, n);
    var info := m.mapInfo[n];
    err := CheckCount(info);
    if err != 0 {
      return;
    }
    var known := CheckAddr(m, n, s);
    if !known {
      return -5;
    }
    err := CheckPlace(m, n, info);
  }

  /** The place of an entry in the random order, and its times. */
  method CheckPlace(m: AddrMan.CAddrMan, n: int, info: AddrInfo) returns (err: int)
    ensures err == 0 <==> PlaceFine(info, m.vRandom, n)
  {
    if info.nRandomPos < 0 || info.nRandomPos >= |m.vRandom| || m.vRandom[info.nRandomPos] != n {
      return -14;
    }
    if info.nLastTry < 0 {
      return -6;
    }
    if info.nLastSuccess < 0 {
      return -8;
    }
    return 0;
  }

  /** The entries are in the two collections, except for those still to be looked at. */
  ghost predicate Sorted(s: State, todo: set<int>, setTried: set<int>, mapNew: map<int, int>) {
    && setTried == TriedIds(s) - todo && mapNew.Keys == NewIds(s) - todo
    && forall id | id in mapNew :: mapNew[id] == s.info[id].nRefCount
  }

  lemma {:induction false} SortedNext(s: State, todo: set<int>, setTried: set<int>, mapNew: map<int, int>, n: int)
    requires Sorted(s, todo, setTried, mapNew) && n in todo && n in s.info
    ensures if s.info[n].fInTried then Sorted(s, todo - {n}, setTried + {n}, mapNew)
            else Sorted(s, todo - {n}, setTried, mapNew[n := s.info[n].nRefCount])
  {
  }

  lemma {:induction false} SortedPositive(s: State, setTried: set<int>, mapNew: map<int, int>)
    requires EntriesFine(Amended(s)) && Sorted(s, {}, setTried, mapNew)
    ensures forall id | id in mapNew :: mapNew[id] == s.info[id].nRefCount > 0
  {
    forall id | id in mapNew ensures mapNew[id] > 0 {
      assert EntryFine(Amended(s), id);
    }
  }

  method CheckEntries(m: AddrMan.CAddrMan, ghost s: State) returns (err: int, setTried: set<int>, mapNew: map<int, int>)
    requires m.Shaped() && m.S() == s
    modifies m
    ensures m.Shaped() && m.S() == s.(addr := m.mapAddr)
    ensures err == 0 <==> EntriesFine(Amended(s))
    ensures err == 0 ==> m.S() == Amended(s) && Sorted(s, {}, setTried, mapNew)
  {
    err, setTried, mapNew := 0, {}, map[];
    var todo := m.mapInfo.Keys;
    ghost var t := Amended(s);
    while todo != {}
      invariant m.Shaped() && m.S() == s.(addr := m.mapAddr) && todo <= s.info.Keys && err == 0
      invariant m.mapAddr == if 0 in s.info && 0 !in todo then t.addr else s.addr
      invariant Sorted(s, todo, setTried, mapNew)
      invariant forall id {:trigger EntryFine(t, id)} | id in s.info && id !in todo :: EntryFine(t, id)
      decreases |todo|
    {
      MemberOrEmpty(todo);
      var n: int :| n in todo;
      var info := m.mapInfo[n];
      SortedNext(s, todo, setTried, mapNew, n);
      err := CheckEntry(m, n, s);
      if err != 0 {
        return;
      }
      if info.fInTried {
        setTried := setTried + {n};
      } else {
        mapNew := mapNew[n := info.nRefCount];
      }
      todo := todo - {n};
    }
  }

  //////////////////////////////////////////////////////////////////////////////
  //
  // The tried table
  //
  //////////////////////////////////////////////////////////////////////////////

  /** The entry is in its own cell of the tried table. */
  ghost predicate Seated(s: State, id: int)
    requires id in s.info
  {
    var c := s.h.TriedCell(ServiceOf(s.info[id]));
    c in s.triedTable && s.triedTable[c] == id
  }

  ghost predicate TriedPlaced(s: State) {
    && (forall c {:trigger TriedCellOk(s, c)} | c in s.triedTable :: TriedCellOk(s, c))
    && (forall id {:trigger Seated(s, id)} | id in s.info && s.info[id].fInTried :: Seated(s, id))
  }

  /** The tables are no larger than they should be. */
  ghost predicate Bounded(s: State) {
    && (forall c | c in s.triedTable :: 0 <= c.bucket < TRIED_BUCKET_COUNT && 0 <= c.pos < BUCKET_SIZE)
    && (forall c | c in s.newTable :: 0 <= c.bucket < NEW_BUCKET_COUNT && 0 <= c.pos < BUCKET_SIZE)
  }

  lemma {:induction false} InRange(m: AddrMan.CAddrMan)
    requires m.Shaped()
    ensures Bounded(m.S())
  {
  }

  /** Has the entry been found in its own cell, before position `i` of bucket `n`? */
  ghost predicate SeatSeen(s: State, id: int, n: nat, i: nat)
    requires id in s.info
  {
    Seated(s, id) && Before(s.h.TriedCell(ServiceOf(s.info[id])), n, i)
  }

  /** All occupied cells before that position are right, and `setTried` are the tried entries not found there. */
  ghost predicate TriedSeen(s: State, setTried: set<int>, n: nat, i: nat) {
    && (forall c {:trigger TriedCellOk(s, c)} | c in s.triedTable && Before(c, n, i) :: TriedCellOk(s, c))
    && setTried <= TriedIds(s)
    && (forall id {:trigger SeatSeen(s, id, n, i)} | id in TriedIds(s) :: id in setTried <==> !SeatSeen(s, id, n, i))
  }

  method CheckTriedTable(m: AddrMan.CAddrMan, setTried0: set<int>, ghost s: State) returns (err: int, setTried: set<int>)
    requires m.Shaped() && m.S() == s && setTried0 == TriedIds(s) && Bounded(s)
    ensures err == 0 && setTried == {} <==> TriedPlaced(s)
  {
    err, setTried := 0, setTried0;
    NoneSeen(s);
    for n := 0 to TRIED_BUCKET_COUNT
      invariant err == 0 && TriedSeen(s, setTried, n, 0)
    {
      for i := 0 to BUCKET_SIZE
        invariant err == 0 && TriedSeen(s, setTried, n, i)
      {
        err, setTried := CheckTriedCell(m, setTried, n, i, s);
        if err != 0 {
          return;
        }
      }
      TriedBucketSeen(s, setTried, n);
    }
    AllTriedSeen(s, setTried);
  }

  method CheckTriedCell(m: AddrMan.CAddrMan, setTried0: set<int>, n: nat, i: nat, ghost s: State)
      returns (err: int, setTried: set<int>)
    requires m.Shaped() && m.S() == s && n < TRIED_BUCKET_COUNT && i < BUCKET_SIZE && TriedSeen(s, setTried0, n, i)
    ensures if err == 0 then TriedSeen(s, setTried, n, i + 1) else !TriedPlaced(s)
  {
    err, setTried := 0, setTried0;
    var id := m.vvTried[n, i];
    if id == -1 {
      assert Cell(n, i) !in s.triedTable;
      FreeSeatSeen(s, setTried, n, i + 1);
      return;
    }
    assert Cell(n, i) in s.triedTable;
    if id !in setTried {
      NotSeatedHere(s, setTried, n, i);
      return -11, setTried;
    }
    if Hasher(m.net, m.nKey).GetTriedBucket(m.mapInfo[id].addr.service) != n {
      assert !TriedCellOk(s, Cell(n, i));
      return -17, setTried;
    }
    if Hasher(m.net, m.nKey).GetBucketPosition(m.mapInfo[id].addr.service, false, n) != i {
      assert !TriedCellOk(s, Cell(n, i));
      return -18, setTried;
    }
    SeatNowSeen(s, setTried, n, i + 1);
    setTried := setTried - {id};
  }

  lemma {:induction false} NoneSeen(s: State)
    requires Bounded(s)
    ensures TriedSeen(s, TriedIds(s), 0, 0)
  {
  }

  lemma {:induction false} FreeSeatSeen(s: State, setTried: set<int>, n: nat, i: nat)
    requires i > 0 && TriedSeen(s, setTried, n, i - 1) && Cell(n, i - 1) !in s.triedTable
    ensures TriedSeen(s, setTried, n, i)
  {
    forall id | id in TriedIds(s) ensures SeatSeen(s, id, n, i) <==> SeatSeen(s, id, n, i - 1) {
    }
  }

  /** The occupant is not a tried entry, or has been found in its own cell before. */
  lemma {:induction false} NotSeatedHere(s: State, setTried: set<int>, n: nat, i: nat)
    requires TriedSeen(s, setTried, n, i) && Cell(n, i) in s.triedTable && s.triedTable[Cell(n, i)] !in setTried
    ensures !TriedCellOk(s, Cell(n, i))
  {
    var id := s.triedTable[Cell(n, i)];
    assert id in TriedIds(s) ==> SeatSeen(s, id, n, i);
  }

  lemma {:induction false} SeatNowSeen(s: State, setTried: set<int>, n: nat, i: nat)
    requires i > 0 && TriedSeen(s, setTried, n, i - 1) && Cell(n, i - 1) in s.triedTable
    requires s.triedTable[Cell(n, i - 1)] in setTried && TriedCellOk(s, Cell(n, i - 1))
    ensures TriedSeen(s, setTried - {s.triedTable[Cell(n, i - 1)]}, n, i)
  {
    var c := Cell(n, i - 1);
    forall id | id in TriedIds(s) ensures SeatSeen(s, id, n, i) <==> SeatSeen(s, id, n, i - 1) || id == s.triedTable[c] {
    }
  }

  lemma {:induction false} TriedBucketSeen(s: State, setTried: set<int>, n: nat)
    requires TriedSeen(s, setTried, n, BUCKET_SIZE) && Bounded(s)
    ensures TriedSeen(s, setTried, n + 1, 0)
  {
    forall id | id in TriedIds(s) ensures SeatSeen(s, id, n + 1, 0) <==> SeatSeen(s, id, n, BUCKET_SIZE) {
    }
  }

  lemma {:induction false} AllTriedSeen(s: State, setTried: set<int>)
    requires TriedSeen(s, setTried, TRIED_BUCKET_COUNT, 0) && Bounded(s)
    ensures setTried == {} <==> TriedPlaced(s)
  {
    forall id | id in TriedIds(s) ensures id !in setTried <==> Seated(s, id) {
      assert SeatSeen(s, id, TRIED_BUCKET_COUNT, 0) <==> Seated(s, id);
    }
    if TriedPlaced(s) {
      assert forall id :: id !in setTried;
    }
  }

  //////////////////////////////////////////////////////////////////////////////
  //
  // The new table
  //
  //////////////////////////////////////////////////////////////////////////////

  /** The entry has as many references as it says. */
  ghost predicate Counted(s: State, id: int)
    requires id in s.info
  {
    s.info[id].nRefCount == |Refs(s, id)|
  }

  ghost predicate NewPlaced(s: State) {
    && (forall c {:trigger NewCellOk(s, c)} | c in s.newTable :: NewCellOk(s, c))
    && (forall id {:trigger Counted(s, id)} | id in s.info && !s.info[id].fInTried :: Counted(s, id))
  }

  /** The references to `id` before position `i` of bucket `n`. */
  ghost function SeenRefs(s: State, id: int, n: nat, i: nat): set<Cell> {
    set c | c in Refs(s, id) && Before(c, n, i)
  }

  /** What mapNew says of an entry is how many references are to be found yet; nothing stands for none. */
  ghost predicate LeftToSee(s: State, mapNew: map<int, int>, id: int, n: nat, i: nat)
    requires id in s.info
  {
    var left := s.info[id].nRefCount - |SeenRefs(s, id, n, i)|;
    if id in mapNew then mapNew[id] == left > 0 else left == 0
  }

  ghost predicate NewSeen(s: State, mapNew: map<int, int>, n: nat, i: nat) {
    && (forall c {:trigger NewCellOk(s, c)} | c in s.newTable && Before(c, n, i) :: NewCellOk(s, c))
    && mapNew.Keys <= NewIds(s)
    && (forall id {:trigger LeftToSee(s, mapNew, id, n, i)} | id in NewIds(s) :: LeftToSee(s, mapNew, id, n, i))
  }

  method CheckNewTable(m: AddrMan.CAddrMan, mapNew0: map<int, int>, ghost s: State) returns (err: int, mapNew: map<int, int>)
    requires m.Shaped() && m.S() == s && Bounded(s)
    requires mapNew0.Keys == NewIds(s) && forall id | id in mapNew0 :: mapNew0[id] == s.info[id].nRefCount > 0
    ensures err == 0 && mapNew == map[] <==> NewPlaced(s)
  {
    err, mapNew := 0, mapNew0;
    NoRefsSeen(s, mapNew);
    for n := 0 to NEW_BUCKET_COUNT
      invariant err == 0 && NewSeen(s, mapNew, n, 0)
    {
      for i := 0 to BUCKET_SIZE
        invariant err == 0 && NewSeen(s, mapNew, n, i)
      {
        err, mapNew := CheckNewCell(m, mapNew, n, i, s);
        if err != 0 {
          return;
        }
      }
      NewBucketSeen(s, mapNew, n);
    }
    AllNewSeen(s, mapNew);
  }

  method CheckNewCell(m: AddrMan.CAddrMan, mapNew0: map<int, int>, n: nat, i: nat, ghost s: State)
      returns (err: int, mapNew: map<int, int>)
    requires m.Shaped() && m.S() == s && n < NEW_BUCKET_COUNT && i < BUCKET_SIZE && NewSeen(s, mapNew0, n, i)
    ensures if err == 0 then NewSeen(s, mapNew, n, i + 1) else !NewPlaced(s)
  {
    err, mapNew := 0, mapNew0;
    var id := m.vvNew[n, i];
    if id == -1 {
      assert Cell(n, i) !in s.newTable;
      FreeCellSeen(s, mapNew, n, i + 1);
      return;
    }
    assert Cell(n, i) in s.newTable;
    if id !in mapNew {
      OneTooMany(s, mapNew, n, i);
      return -12, mapNew;
    }
    if Hasher(m.net, m.nKey).GetBucketPosition(m.mapInfo[id].addr.service, true, n) != i {
      assert !NewCellOk(s, Cell(n, i));
      return -19, mapNew;
    }
    CellNowSeen(s, mapNew, n, i + 1);
    mapNew := mapNew[id := mapNew[id] - 1];
    if mapNew[id] == 0 {
      mapNew := mapNew - {id};
    }
    assert mapNew == Less(mapNew0, id);
  }

  lemma {:induction false} NoRefsSeen(s: State, mapNew: map<int, int>)
    requires Bounded(s) && mapNew.Keys == NewIds(s) && forall id | id in mapNew :: mapNew[id] == s.info[id].nRefCount > 0
    ensures NewSeen(s, mapNew, 0, 0)
  {
    forall id | id in NewIds(s) ensures LeftToSee(s, mapNew, id, 0, 0) {
      assert SeenRefs(s, id, 0, 0) == {};
    }
  }

  /** One reference fewer to be found; an entry without any more is dropped. */
  function Less(mapNew: map<int, int>, id: int): map<int, int>
    requires id in mapNew
  {
    if mapNew[id] == 1 then mapNew - {id} else mapNew[id := mapNew[id] - 1]
  }

  lemma {:induction false} FreeCellSeen(s: State, mapNew: map<int, int>, n: nat, i: nat)
    requires i > 0 && NewSeen(s, mapNew, n, i - 1) && Cell(n, i - 1) !in s.newTable
    ensures NewSeen(s, mapNew, n, i)
  {
    forall id | id in NewIds(s) ensures LeftToSee(s, mapNew, id, n, i) {
      assert LeftToSee(s, mapNew, id, n, i - 1);
      assert SeenRefs(s, id, n, i) == SeenRefs(s, id, n, i - 1);
    }
  }

  /** The occupant is not a new entry, or all references it says it has have been found before. */
  lemma {:induction false} OneTooMany(s: State, mapNew: map<int, int>, n: nat, i: nat)
    requires NewSeen(s, mapNew, n, i) && Cell(n, i) in s.newTable && s.newTable[Cell(n, i)] !in mapNew
    ensures !NewPlaced(s)
  {
    var c := Cell(n, i);
    var id := s.newTable[c];
    if id in NewIds(s) {
      assert LeftToSee(s, mapNew, id, n, i);
      assert c in Refs(s, id) && c !in SeenRefs(s, id, n, i);
      SubsetSize(SeenRefs(s, id, n, i), Refs(s, id));
      assert !Counted(s, id);
    } else {
      assert !NewCellOk(s, c);
    }
  }

  lemma {:induction false} CellNowSeen(s: State, mapNew: map<int, int>, n: nat, i: nat)
    requires i > 0 && NewSeen(s, mapNew, n, i - 1) && Cell(n, i - 1) in s.newTable
    requires s.newTable[Cell(n, i - 1)] in mapNew && NewCellOk(s, Cell(n, i - 1))
    ensures NewSeen(s, Less(mapNew, s.newTable[Cell(n, i - 1)]), n, i)
  {
    var c := Cell(n, i - 1);
    var id := s.newTable[c];
    forall x | x in NewIds(s) ensures LeftToSee(s, Less(mapNew, id), x, n, i) {
      assert LeftToSee(s, mapNew, x, n, i - 1);
      CellAddsRef(s, x, n, i);
    }
  }

  lemma {:induction false} CellAddsRef(s: State, id: int, n: nat, i: nat)
    requires i > 0 && Cell(n, i - 1) in s.newTable
    ensures |SeenRefs(s, id, n, i)| == |SeenRefs(s, id, n, i - 1)| + if s.newTable[Cell(n, i - 1)] == id then 1 else 0
  {
    var c := Cell(n, i - 1);
    assert SeenRefs(s, id, n, i) == SeenRefs(s, id, n, i - 1) + if s.newTable[c] == id then {c} else {};
  }

  lemma {:induction false} NewBucketSeen(s: State, mapNew: map<int, int>, n: nat)
    requires Bounded(s) && NewSeen(s, mapNew, n, BUCKET_SIZE)
    ensures NewSeen(s, mapNew, n + 1, 0)
  {
    forall id | id in NewIds(s) ensures LeftToSee(s, mapNew, id, n + 1, 0) {
      assert LeftToSee(s, mapNew, id, n, BUCKET_SIZE);
      assert SeenRefs(s, id, n + 1, 0) == SeenRefs(s, id, n, BUCKET_SIZE);
    }
  }

  lemma {:induction false} AllNewSeen(s: State, mapNew: map<int, int>)
    requires Bounded(s) && NewSeen(s, mapNew, NEW_BUCKET_COUNT, 0)
    ensures mapNew == map[] <==> NewPlaced(s)
  {
    forall id | id in NewIds(s) ensures id !in mapNew <==> Counted(s, id) {
      assert LeftToSee(s, mapNew, id, NEW_BUCKET_COUNT, 0);
      assert SeenRefs(s, id, NEW_BUCKET_COUNT, 0) == Refs(s, id);
    }
    if NewPlaced(s) {
      assert forall id :: id !in mapNew;
    }
  }
}
