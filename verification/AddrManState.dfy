/**
The address manager's state as a value: the entries, the three indexes over them, the two
bucket tables and the counters, with the effect of every operation on that state.

Randomness and the clock are arguments.  The keyed bucket hashes and the routability test are
fields of `Net`, so everything here holds for any choice of them.
*/
module AddrManState {

  const TRIED_BUCKET_COUNT := 256
  const NEW_BUCKET_COUNT := 1024
  const BUCKET_SIZE := 64
  const NEW_BUCKETS_PER_ADDRESS := 8
  const HORIZON_DAYS := 30
  const RETRIES := 3
  const MAX_FAILURES := 10
  const MIN_FAIL_DAYS := 7
  const GETADDR_MAX_PCT := 23
  const GETADDR_MAX := 2500
  const UINT32 := 0x1_0000_0000

  /** Conversion of a signed time to the 32-bit unsigned one an address records. */
  function ToUint32(n: int): nat { n % UINT32 }

  /** A network address (`ip`, standing for a CNetAddr) and a port. */
  datatype Service = Service(ip: nat, port: nat)

  /** `nServices` is the set of service bits. */
  datatype Address = Address(service: Service, nServices: set<nat>, nTime: nat)

  datatype AddrInfo = AddrInfo(addr: Address, source: nat, nLastSuccess: int, nLastTry: int,
                               nAttempts: int, nRefCount: int, fInTried: bool, nRandomPos: int)

  /** A position in one of the two bucket tables. */
  datatype Cell = Cell(bucket: int, pos: int)

  type Table = map<Cell, int>

  //////////////////////////////////////////////////////////////////////////////
  //
  // Placement: which cells an address may occupy
  //
  //////////////////////////////////////////////////////////////////////////////

  /**
  The hashes behind bucket selection, each keyed with the manager's secret key, and the
  routability test.
  */
  datatype Net = Net(triedHash: (nat, Service) -> nat, newHash: (nat, Service, nat) -> nat,
                     positionHash: (nat, Service, bool, nat) -> nat, routable: nat -> bool)

  /** The hash functions together with the manager's secret key. */
  datatype Hasher = Hasher(net: Net, nKey: nat) {

    function GetTriedBucket(a: Service): int {
      net.triedHash(nKey, a) % TRIED_BUCKET_COUNT
    }

    function GetNewBucket(a: Service, source: nat): int {
      net.newHash(nKey, a, source) % NEW_BUCKET_COUNT
    }

    function GetBucketPosition(a: Service, fNew: bool, bucket: nat): int {
      net.positionHash(nKey, a, fNew, bucket) % BUCKET_SIZE
    }

    /** The one cell of the tried table where an address can be. */
    function TriedCell(a: Service): Cell {
      var b := GetTriedBucket(a);
      Cell(b, GetBucketPosition(a, false, b))
    }

    /** The one cell of new bucket `b` where an address can be. */
    function NewCell(a: Service, b: nat): Cell {
      Cell(b, GetBucketPosition(a, true, b))
    }
  }

  /**
  Which bits of which hash choose a cell: 256 tried and 1024 new buckets of 64 positions each,
  the position hashed together with the table and the bucket.
  */
  lemma {:induction false} CellsAreHashes(h: Hasher, a: Service, source: nat)
    ensures var c := h.TriedCell(a);
            && 0 <= c.bucket < 256 && (h.net.triedHash(h.nKey, a) - c.bucket) % 256 == 0
            && 0 <= c.pos < 64 && (h.net.positionHash(h.nKey, a, false, c.bucket) - c.pos) % 64 == 0
    ensures var c := h.NewCell(a, h.GetNewBucket(a, source));
            && 0 <= c.bucket < 1024 && (h.net.newHash(h.nKey, a, source) - c.bucket) % 1024 == 0
            && 0 <= c.pos < 64 && (h.net.positionHash(h.nKey, a, true, c.bucket) - c.pos) % 64 == 0
  {
  }

  //////////////////////////////////////////////////////////////////////////////
  //
  // The state and its consistency
  //
  //////////////////////////////////////////////////////////////////////////////

  datatype State = State(h: Hasher, nIdCount: nat, info: map<int, AddrInfo>, addr: map<nat, int>,
                         random: seq<int>, triedTable: Table, nTried: int, newTable: Table, nNew: int)

  function Empty(h: Hasher): State {
    State(h, 0, map[], map[], [], map[], 0, map[], 0)
  }

  function ServiceOf(i: AddrInfo): Service { i.addr.service }

  function IpOf(i: AddrInfo): nat { i.addr.service.ip }

  ghost function Refs(s: State, id: int): set<Cell> {
    set c | c in s.newTable && s.newTable[c] == id
  }

  ghost function TriedIds(s: State): set<int> { set id | id in s.info && s.info[id].fInTried }

  ghost function NewIds(s: State): set<int> { set id | id in s.info && !s.info[id].fInTried }

  // The indexes, one entry, address or position at a time.

  ghost predicate InSlot(s: State, id: int)
    requires id in s.info
  {
    var p := s.info[id].nRandomPos;
    0 <= p < |s.random| && s.random[p] == id
  }

  ghost predicate EntrySlotted(s: State, id: int)
    requires id in s.info
  {
    0 <= id < s.nIdCount && InSlot(s, id)
  }

  ghost predicate EntryIndexed(s: State, id: int)
    requires id in s.info
  {
    EntrySlotted(s, id) && IpOf(s.info[id]) in s.addr && s.addr[IpOf(s.info[id])] == id
  }

  ghost predicate AddrIndexed(s: State, ip: nat)
    requires ip in s.addr
  {
    s.addr[ip] in s.info && IpOf(s.info[s.addr[ip]]) == ip
  }

  ghost predicate SlotIndexed(s: State, p: int)
    requires 0 <= p < |s.random|
  {
    s.random[p] in s.info && s.info[s.random[p]].nRandomPos == p
  }

  /** mapInfo and vRandom are inverse indexes of one set of entries. */
  ghost predicate Slotted(s: State) {
    && (forall id {:trigger EntrySlotted(s, id)} | id in s.info :: EntrySlotted(s, id))
    && (forall p {:trigger SlotIndexed(s, p)} | 0 <= p < |s.random| :: SlotIndexed(s, p))
  }

  /** mapInfo, mapAddr and vRandom are mutually inverse indexes of one set of addresses. */
  ghost predicate Indexed(s: State) {
    && (forall id {:trigger EntryIndexed(s, id)} {:trigger EntrySlotted(s, id)} | id in s.info :: EntryIndexed(s, id))
    && (forall ip {:trigger AddrIndexed(s, ip)} | ip in s.addr :: AddrIndexed(s, ip))
    && (forall p {:trigger SlotIndexed(s, p)} | 0 <= p < |s.random| :: SlotIndexed(s, p))
  }

  // The tables, one cell or entry at a time.

  ghost predicate TriedCellOk(s: State, c: Cell)
    requires c in s.triedTable
  {
    var id := s.triedTable[c];
    id in s.info && s.info[id].fInTried && c == s.h.TriedCell(ServiceOf(s.info[id]))
  }

  ghost predicate TriedEntryOk(s: State, id: int)
    requires id in s.info
  {
    var c := s.h.TriedCell(ServiceOf(s.info[id]));
    s.info[id].nRefCount == 0 && c in s.triedTable && s.triedTable[c] == id
  }

  ghost predicate NewCellOk(s: State, c: Cell)
    requires c in s.newTable
  {
    var id := s.newTable[c];
    && id in s.info && !s.info[id].fInTried
    && 0 <= c.bucket < NEW_BUCKET_COUNT && c == s.h.NewCell(ServiceOf(s.info[id]), c.bucket)
  }

  ghost predicate NewEntryOk(s: State, id: int, loose: set<int>)
    requires id in s.info
  {
    && s.info[id].nRefCount == |Refs(s, id)| <= NEW_BUCKETS_PER_ADDRESS
    && (s.info[id].nRefCount == 0 <==> id in loose)
  }

  /** Every tried entry sits in its own cell of the tried table, and nothing else is there. */
  ghost predicate TriedConsistent(s: State) {
    && (forall c {:trigger TriedCellOk(s, c)} | c in s.triedTable :: TriedCellOk(s, c))
    && (forall id {:trigger TriedEntryOk(s, id)} | id in s.info && s.info[id].fInTried :: TriedEntryOk(s, id))
  }

  /**
  The new table holds new entries only, each at the right position of its bucket; reference
  counts count the cells, and exactly the new entries in `loose` have none.
  */
  ghost predicate NewConsistent(s: State, loose: set<int>) {
    && loose <= NewIds(s)
    && (forall c {:trigger NewCellOk(s, c)} | c in s.newTable :: NewCellOk(s, c))
    && (forall id {:trigger NewEntryOk(s, id, loose)} | id in s.info && !s.info[id].fInTried :: NewEntryOk(s, id, loose))
  }

  /** Both tables and both counters are consistent, but for `missing` new entries that are not counted. */
  ghost predicate Tabled(s: State, loose: set<int>, missing: int) {
    && TriedConsistent(s)
    && NewConsistent(s, loose)
    && s.nTried == |TriedIds(s)|
    && s.nNew == |NewIds(s)| - missing
  }

  /**
  Consistency in the middle of an operation: the new entries in `loose` have lost their last
  reference, and `missing` of the new entries are not counted in nNew.
  */
  ghost predicate Consistent(s: State, loose: set<int>, missing: int) {
    Indexed(s) && Tabled(s, loose, missing)
  }

  predicate TimesFine(i: AddrInfo) {
    i.nLastTry >= 0 && i.nLastSuccess >= 0 && (i.fInTried ==> i.nLastSuccess != 0)
  }

  /** What the consistency check of addrman.cpp demands of the recorded times. */
  ghost predicate TimesOk(s: State) {
    forall id | id in s.info :: TimesFine(s.info[id])
  }

  ghost predicate Inv(s: State) {
    Consistent(s, {}, 0) && TimesOk(s)
  }

  /**
  Where a consistent manager keeps an entry: a tried one in the one tried cell its address hashes
  to, a new one in one to eight new cells, each at the position its address hashes to.
  */
  lemma {:induction false} EntryPlaces(s: State, id: int)
    requires Consistent(s, {}, 0) && id in s.info
    ensures var a, n, k := ServiceOf(s.info[id]), s.h.net, s.h.nKey;
            var b := n.triedHash(k, a) % 256;
            && (forall c | c in s.triedTable :: s.triedTable[c] == id ==> c == Cell(b, n.positionHash(k, a, false, b) % 64))
            && (s.info[id].fInTried ==> Cell(b, n.positionHash(k, a, false, b) % 64) in s.triedTable.Keys && Refs(s, id) == {})
            && (!s.info[id].fInTried ==> (forall c | c in s.triedTable :: s.triedTable[c] != id))
            && (!s.info[id].fInTried ==> 1 <= |Refs(s, id)| <= 8)
            && (forall c | c in Refs(s, id) :: 0 <= c.bucket < 1024 && c.pos == n.positionHash(k, a, true, c.bucket) % 64)
  {
    forall c | c in s.triedTable && s.triedTable[c] == id ensures c == s.h.TriedCell(ServiceOf(s.info[id])) && s.info[id].fInTried {
      assert TriedCellOk(s, c);
    }
    forall c | c in Refs(s, id) ensures NewCellOk(s, c) {
    }
    if s.info[id].fInTried {
      assert TriedEntryOk(s, id);
      assert Refs(s, id) == {};
    } else {
      assert NewEntryOk(s, id, {});
    }
  }

  //////////////////////////////////////////////////////////////////////////////
  //
  // Entries and the random order: SwapRandom, Create, Delete
  //
  //////////////////////////////////////////////////////////////////////////////

  function Update(s: State, id: int, i: AddrInfo): State {
    s.(info := s.info[id := i])
  }

  function SwapRandom(s: State, i: int, j: int): State
    requires i != j ==> 0 <= i < |s.random| && 0 <= j < |s.random|
    requires i != j ==> SlotIndexed(s, i) && SlotIndexed(s, j)
  {
    if i == j then s
    else
      var a, b := s.random[i], s.random[j];
      var info1 := s.info[a := s.info[a].(nRandomPos := j)];
      s.(info := info1[b := info1[b].(nRandomPos := i)], random := s.random[i := b][j := a])
  }

  function Create(s: State, addr: Address, source: nat): State {
    var i := AddrInfo(addr, source, 0, 0, 0, 0, false, |s.random|);
    s.(nIdCount := s.nIdCount + 1, info := s.info[s.nIdCount := i],
       addr := s.addr[addr.service.ip := s.nIdCount], random := s.random + [s.nIdCount])
  }

  function Delete(s: State, id: int): State
    requires id in s.info && EntrySlotted(s, id) && SlotIndexed(s, |s.random| - 1)
  {
    var last := |s.random| - 1;
    assert SlotIndexed(s, s.info[id].nRandomPos);
    var t := SwapRandom(s, s.info[id].nRandomPos, last);
    t.(random := t.random[..last], addr := t.addr - {IpOf(t.info[id])}, info := t.info - {id}, nNew := t.nNew - 1)
  }

  /** Two entry maps that differ at most in the positions in the random order. */
  ghost predicate SameButPositions(m: map<int, AddrInfo>, n: map<int, AddrInfo>) {
    m.Keys == n.Keys && forall id | id in m :: n[id] == m[id].(nRandomPos := n[id].nRandomPos)
  }

  lemma {:induction false} SwapRandomIndexed(s: State, i: int, j: int)
    requires Indexed(s) && 0 <= i < |s.random| && 0 <= j < |s.random|
    ensures SlotIndexed(s, i) && SlotIndexed(s, j)
    ensures Indexed(SwapRandom(s, i, j))
    ensures SameButPositions(s.info, SwapRandom(s, i, j).info)
  {
    assert SlotIndexed(s, i) && SlotIndexed(s, j);
    var t := SwapRandom(s, i, j);
    forall id | id in t.info ensures EntryIndexed(t, id) {
      assert EntryIndexed(s, id);
    }
    forall ip | ip in t.addr ensures AddrIndexed(t, ip) {
      assert AddrIndexed(s, ip);
    }
    forall p | 0 <= p < |t.random| ensures SlotIndexed(t, p) {
      assert SlotIndexed(s, p);
    }
  }

  lemma {:induction false} SwapRandomKeeps(s: State, i: int, j: int, loose: set<int>, missing: int)
    requires 0 <= i < |s.random| && 0 <= j < |s.random|
    requires Consistent(s, loose, missing)
    ensures SlotIndexed(s, i) && SlotIndexed(s, j)
    ensures var t := SwapRandom(s, i, j);
            && Consistent(t, loose, missing)
            && t.random == s.random[i := s.random[j]][j := s.random[i]]
            && SameButPositions(s.info, t.info) && t == s.(info := t.info, random := t.random)
  {
    SwapRandomIndexed(s, i, j);
    PositionsAreFree(s, SwapRandom(s, i, j), loose);
  }

  /** The tables and counters do not depend on the random order. */
  lemma {:induction false} PositionsAreFree(s: State, t: State, loose: set<int>)
    requires TriedConsistent(s) && NewConsistent(s, loose)
    requires SameButPositions(s.info, t.info) && t.h == s.h
    requires t.triedTable == s.triedTable && t.newTable == s.newTable
    ensures TriedConsistent(t) && NewConsistent(t, loose)
    ensures TriedIds(t) == TriedIds(s) && NewIds(t) == NewIds(s)
  {
    assert t.info.Keys == s.info.Keys;
    assert forall id | id in s.info :: t.info[id].fInTried == s.info[id].fInTried;
    forall c | c in t.triedTable ensures TriedCellOk(t, c) {
      assert TriedCellOk(s, c);
    }
    forall id | id in t.info && t.info[id].fInTried ensures TriedEntryOk(t, id) {
      assert TriedEntryOk(s, id);
    }
    forall c | c in t.newTable ensures NewCellOk(t, c) {
      assert NewCellOk(s, c);
    }
    forall id | id in t.info && !t.info[id].fInTried ensures NewEntryOk(t, id, loose) {
      assert NewEntryOk(s, id, loose);
      assert Refs(t, id) == Refs(s, id);
    }
  }

  lemma {:induction false} DeleteSlotted(s: State, id: int)
    requires Slotted(s) && id in s.info
    ensures EntrySlotted(s, id) && SlotIndexed(s, |s.random| - 1)
    ensures var t := Delete(s, id);
            && Slotted(t) && t.info.Keys == s.info.Keys - {id} && SameButPositions(s.info - {id}, t.info)
            && t.addr == s.addr - {IpOf(s.info[id])}
  {
    var last := |s.random| - 1;
    assert EntrySlotted(s, id) && SlotIndexed(s, last);
    var m := SwapRandom(s, s.info[id].nRandomPos, last);
    var t := Delete(s, id);
    assert m.random[last] == id && m.info[id].nRandomPos == last;
    forall x | x in t.info ensures EntrySlotted(t, x) {
      assert EntrySlotted(s, x);
    }
    forall q | 0 <= q < |t.random| ensures SlotIndexed(t, q) {
      assert SlotIndexed(s, q);
    }
  }

  lemma {:induction false} DeleteIndexed(s: State, id: int)
    requires Indexed(s) && id in s.info
    ensures Indexed(Delete(s, id))
    ensures Delete(s, id).info.Keys == s.info.Keys - {id}
    ensures SameButPositions(s.info - {id}, Delete(s, id).info)
  {
    DeleteSlotted(s, id);
    var t := Delete(s, id);
    forall x | x in t.info ensures EntryIndexed(t, x) {
      assert x in s.info - {id} && EntrySlotted(t, x) && EntryIndexed(s, x) && EntryIndexed(s, id);
    }
    forall ip | ip in t.addr ensures AddrIndexed(t, ip) {
      assert AddrIndexed(s, ip) && EntryIndexed(s, id);
      assert s.addr[ip] in s.info - {id};
    }
  }

  /**
  Delete removes exactly the entry, from all three indexes, and touches the others' positions
  only: the last one in the random order moves into the gap.
  */
  lemma {:induction false} DeleteKeeps(s: State, id: int, loose: set<int>, missing: int)
    requires Consistent(s, loose, missing) && id in loose
    ensures var t := Delete(s, id);
            && Consistent(t, loose - {id}, missing)
            && t.info.Keys == s.info.Keys - {id} && SameButPositions(s.info - {id}, t.info)
            && t.addr == s.addr - {IpOf(s.info[id])}
            && t.random + [s.random[|s.random| - 1]] == s.random[s.info[id].nRandomPos := s.random[|s.random| - 1]]
            && t == s.(info := t.info, addr := t.addr, random := t.random, nNew := s.nNew - 1)
  {
    DeleteSlotted(s, id);
    DeleteIndexed(s, id);
    DeleteTabled(s, id, loose, missing);
  }

  lemma {:induction false} DeleteTabled(s: State, id: int, loose: set<int>, missing: int)
    requires Slotted(s) && Tabled(s, loose, missing) && id in loose
    ensures Tabled(Delete(s, id), loose - {id}, missing)
  {
    DeleteSlotted(s, id);
    var t := Delete(s, id);
    var u := s.(info := s.info - {id});
    assert NewEntryOk(s, id, loose) && Refs(s, id) == {};
    assert NewIds(u) == NewIds(s) - {id} && TriedIds(u) == TriedIds(s);
    forall c | c in u.newTable ensures NewCellOk(u, c) {
      assert NewCellOk(s, c);
      assert s.newTable[c] == id ==> c in Refs(s, id);
    }
    forall c | c in u.triedTable ensures TriedCellOk(u, c) {
      assert TriedCellOk(s, c);
    }
    forall x | x in u.info ensures if u.info[x].fInTried then TriedEntryOk(u, x) else NewEntryOk(u, x, loose - {id}) {
      assert if s.info[x].fInTried then TriedEntryOk(s, x) else NewEntryOk(s, x, loose);
      assert Refs(u, x) == Refs(s, x);
    }
    PositionsAreFree(u, t, loose - {id});
  }
}
