/**
The address manager itself: fields updated in place, each method proved to have exactly the
effect that AddrManState, AddrManTables, AddrManGood and AddrManRuns give it.  The assertions of
addrman.cpp appear as assertions here.
*/
module AddrMan {
  import opened AddrManState
  import Tables = AddrManTables
  import Good = AddrManGood
  import Runs = AddrManRuns

  /** The occupied cells of a bucket table; -1 marks a free one. */
  ghost function Occupied(t: array2<int>): Table
    reads t
  {
    map b, p | 0 <= b < t.Length0 && 0 <= p < t.Length1 && t[b, p] != -1 :: Cell(b, p) := t[b, p]
  }

  method SetCell(t: array2<int>, c: Cell, id: int)
    requires 0 <= c.bucket < t.Length0 && 0 <= c.pos < t.Length1
    modifies t
    ensures Occupied(t) == if id == -1 then old(Occupied(t)) - {c} else old(Occupied(t))[c := id]
    ensures t[c.bucket, c.pos] == id
  {
    t[c.bucket, c.pos] := id;
  }

  /** Free every cell. */
  method ClearTable(t: array2<int>)
    modifies t
    ensures Occupied(t) == map[]
  {
    for bucket := 0 to t.Length0
      invariant forall b, p | 0 <= b < bucket && 0 <= p < t.Length1 :: t[b, p] == -1
    {
      for entry := 0 to t.Length1
        invariant forall b, p | 0 <= b < bucket && 0 <= p < t.Length1 :: t[b, p] == -1
        invariant forall p | 0 <= p < entry :: t[bucket, p] == -1
      {
        t[bucket, entry] := -1;
      }
    }
  }

  class CAddrMan {
    const net: Net
    var nKey: nat
    var nIdCount: nat
    var mapInfo: map<int, AddrInfo>
    var mapAddr: map<nat, int>
    var vRandom: seq<int>
    var nTried: int
    const vvTried: array2<int>
    var nNew: int
    const vvNew: array2<int>

    ghost predicate Shaped() {
      && vvTried.Length0 == TRIED_BUCKET_COUNT && vvTried.Length1 == BUCKET_SIZE
      && vvNew.Length0 == NEW_BUCKET_COUNT && vvNew.Length1 == BUCKET_SIZE
      && vvTried != vvNew
    }

    /** The state this object holds. */
    ghost function S(): State
      reads this, vvTried, vvNew
    {
      State(Hasher(net, nKey), nIdCount, mapInfo, mapAddr, vRandom, Occupied(vvTried), nTried, Occupied(vvNew), nNew)
    }

    ghost predicate Valid()
      reads this, vvTried, vvNew
    {
      Shaped() && Consistent(S(), {}, 0)
    }

    constructor (net: Net, nKey: nat)
      ensures Valid() && fresh(vvTried) && fresh(vvNew)
      ensures S() == Empty(Hasher(net, nKey)) && Inv(S())
    {
      this.net := net;
      mapInfo, mapAddr := map[], map[];
      vvTried := new int[TRIED_BUCKET_COUNT, BUCKET_SIZE];
      vvNew := new int[NEW_BUCKET_COUNT, BUCKET_SIZE];
      new;
      Clear(nKey);
      Runs.RunConsistent(Hasher(net, nKey), []);
    }

    /** Forget the random order, the tables and the counters, but no entry and no address. */
    method Clear(nKey: nat)
      requires Shaped()
      modifies this, vvTried, vvNew
      ensures S() == Empty(Hasher(net, nKey)).(info := old(mapInfo), addr := old(mapAddr))
    {
      vRandom := [];
      this.nKey := nKey;
      ClearTable(vvNew);
      ClearTable(vvTried);
      nIdCount, nTried, nNew := 0, 0, 0;
    }

    method Find(ip: nat) returns (found: bool, nId: int)
      ensures found <==> ip in mapAddr && mapAddr[ip] in mapInfo
      ensures found ==> nId == mapAddr[ip]
    {
      found, nId := false, -1;
      if ip in mapAddr {
        nId := mapAddr[ip];
        found := nId in mapInfo;
      }
    }

    method Create(addr: Address, source: nat) returns (nId: int)
      requires Shaped()
      modifies this
      ensures S() == AddrManState.Create(old(S()), addr, source) && nId == old(nIdCount)
    {
      nId := nIdCount;
      nIdCount := nIdCount + 1;
      mapInfo := mapInfo[nId := AddrInfo(addr, source, 0, 0, 0, 0, false, -1)];
      mapAddr := mapAddr[addr.service.ip := nId];
      mapInfo := mapInfo[nId := mapInfo[nId].(nRandomPos := |vRandom|)];
      vRandom := vRandom + [nId];
    }

    method SwapRandom(nRndPos1: nat, nRndPos2: nat)
      requires nRndPos1 != nRndPos2 ==> nRndPos1 < |vRandom| && nRndPos2 < |vRandom|
      requires nRndPos1 != nRndPos2 ==> SlotIndexed(S(), nRndPos1) && SlotIndexed(S(), nRndPos2)
      modifies this
      ensures S() == AddrManState.SwapRandom(old(S()), nRndPos1, nRndPos2)
    {
      if nRndPos1 == nRndPos2 {
        return;
      }
      var nId1, nId2 := vRandom[nRndPos1], vRandom[nRndPos2];
      assert nId1 in mapInfo;
      assert nId2 in mapInfo;
      mapInfo := mapInfo[nId1 := mapInfo[nId1].(nRandomPos := nRndPos2)];
      mapInfo := mapInfo[nId2 := mapInfo[nId2].(nRandomPos := nRndPos1)];
      vRandom := vRandom[nRndPos1 := nId2];
      vRandom := vRandom[nRndPos2 := nId1];
    }

    method Delete(nId: int)
      requires nId in mapInfo && !mapInfo[nId].fInTried && mapInfo[nId].nRefCount == 0
      requires EntrySlotted(S(), nId) && SlotIndexed(S(), |vRandom| - 1)
      modifies this
      ensures S() == AddrManState.Delete(old(S()), nId)
    {
      SwapRandom(mapInfo[nId].nRandomPos, |vRandom| - 1);
      Forget(nId);
    }

    /** Remove the entry, which is the last in the random order. */
    method Forget(nId: int)
      requires nId in mapInfo && |vRandom| > 0
      modifies this
      ensures S() == old(S().(random := vRandom[..|vRandom| - 1], addr := mapAddr - {IpOf(mapInfo[nId])}, info := mapInfo - {nId}, nNew := nNew - 1))
    {
      vRandom := vRandom[..|vRandom| - 1];
      mapAddr := mapAddr - {mapInfo[nId].addr.service.ip};
      mapInfo := mapInfo - {nId};
      nNew := nNew - 1;
    }

    method ClearNew(c: Cell, ghost loose: set<int>, ghost missing: int)
      requires Shaped() && Consistent(S(), loose, missing)
      requires 0 <= c.bucket < NEW_BUCKET_COUNT && 0 <= c.pos < BUCKET_SIZE
      modifies this, vvNew
      ensures c in old(S()).newTable ==> old(S()).newTable[c] in old(S()).info
      ensures S() == Tables.ClearNew(old(S()), c)
      ensures vvNew[c.bucket, c.pos] == -1
    {
      if vvNew[c.bucket, c.pos] != -1 {
        var nIdDelete := vvNew[c.bucket, c.pos];
        assert c in S().newTable && S().newTable[c] == nIdDelete;
        Tables.DetachKeeps(S(), c, loose, missing);
        ghost var t := Tables.Detach(S(), c);
        assert mapInfo[nIdDelete].nRefCount > 0;
        assert !mapInfo[nIdDelete].fInTried by {
          assert NewCellOk(S(), c);
        }
        mapInfo := mapInfo[nIdDelete := mapInfo[nIdDelete].(nRefCount := mapInfo[nIdDelete].nRefCount - 1)];
        SetCell(vvNew, c, -1);
        assert S() == t;
        if mapInfo[nIdDelete].nRefCount == 0 {
          Delete(nIdDelete);
        }
      }
    }

    /** Take the entry out of one new bucket, the earlier ones having been dealt with. */
    method RemoveFromBucket(nId: int, bucket: nat, ghost s: State)
      requires Shaped() && bucket < NEW_BUCKET_COUNT && 0 <= nId
      requires nId in s.info && Tables.Placed(s) && S() == Tables.StripTo(s, nId, bucket)
      modifies this, vvNew
      ensures S() == Tables.StripTo(s, nId, bucket + 1)
    {
      Tables.StripStep(s, nId, bucket);
      var c := Hasher(net, nKey).NewCell(mapInfo[nId].addr.service, bucket);
      if vvNew[c.bucket, c.pos] == nId {
        assert c in S().newTable;
        SetCell(vvNew, c, -1);
        mapInfo := mapInfo[nId := mapInfo[nId].(nRefCount := mapInfo[nId].nRefCount - 1)];
      } else {
        assert !(c in S().newTable && S().newTable[c] == nId);
      }
    }

    /** Take the entry out of all new buckets. */
    method RemoveFromNew(nId: int)
      requires Shaped() && Indexed(S()) && Tables.Placed(S()) && nId in mapInfo && 0 <= nId
      modifies this, vvNew
      ensures S() == Tables.Strip(old(S()), nId)
    {
      Tables.StripEnds(S(), nId);
      RemoveFromBuckets(nId);
      nNew := nNew - 1;
    }

    method RemoveFromBuckets(nId: int)
      requires Shaped() && Tables.Placed(S()) && nId in mapInfo && 0 <= nId && Tables.StripTo(S(), nId, 0) == S()
      modifies this, vvNew
      ensures S() == Tables.StripTo(old(S()), nId, NEW_BUCKET_COUNT)
    {
      ghost var s := S();
      for bucket := 0 to NEW_BUCKET_COUNT
        invariant S() == Tables.StripTo(s, nId, bucket)
      {
        RemoveFromBucket(nId, bucket, s);
      }
    }

    /** Take the occupant out of tried cell `c`. */
    method Unseat(c: Cell, ghost loose: set<int>, ghost missing: int) returns (nIdEvict: int)
      requires Shaped() && Consistent(S(), loose, missing)
      requires 0 <= c.bucket < TRIED_BUCKET_COUNT && 0 <= c.pos < BUCKET_SIZE && vvTried[c.bucket, c.pos] != -1
      modifies this, vvTried
      ensures c in old(S()).triedTable && nIdEvict == old(S()).triedTable[c] && nIdEvict in old(S()).info
      ensures S() == Tables.Unseat(old(S()), c)
      ensures vvTried[c.bucket, c.pos] == -1
    {
      nIdEvict := vvTried[c.bucket, c.pos];
      assert c in S().triedTable && S().triedTable[c] == nIdEvict;
      Tables.UnseatKeeps(S(), c, loose, missing);
      assert nIdEvict in mapInfo;
      mapInfo := mapInfo[nIdEvict := mapInfo[nIdEvict].(fInTried := false)];
      SetCell(vvTried, c, -1);
      nTried := nTried - 1;
    }

    /** Move the occupant of tried cell `c` back to the new table. */
    method Evict(c: Cell, ghost loose: set<int>, ghost missing: int)
      requires Shaped() && Consistent(S(), loose, missing)
      requires 0 <= c.bucket < TRIED_BUCKET_COUNT && 0 <= c.pos < BUCKET_SIZE && vvTried[c.bucket, c.pos] != -1
      modifies this, vvTried, vvNew
      ensures c in old(S()).triedTable
      ensures S() == Good.Evict(old(S()), c, loose, missing)
      ensures vvTried[c.bucket, c.pos] == -1
    {
      ghost var s := S();
      var nIdEvict := Unseat(c, loose, missing);
      Tables.UnseatKeeps(s, c, loose, missing);

      var infoOld := mapInfo[nIdEvict];
      var nUBucket := Hasher(net, nKey).GetNewBucket(infoOld.addr.service, infoOld.source);
      var u := Hasher(net, nKey).NewCell(infoOld.addr.service, nUBucket);
      ClearNew(u, loose + {nIdEvict}, missing + 1);
      assert vvNew[u.bucket, u.pos] == -1;
      Good.DisplacedIsLoose(s, c, loose, missing);
      EnterAgain(nIdEvict, u);
    }

    /** Give the unreferenced entry its one reference in new cell `c`. */
    method EnterAgain(nId: int, c: Cell)
      requires Shaped() && Indexed(S()) && nId in mapInfo && mapInfo[nId].nRefCount == 0
      requires 0 <= c.bucket < NEW_BUCKET_COUNT && 0 <= c.pos < BUCKET_SIZE
      modifies this, vvNew
      ensures S() == (var t := Tables.Attach(old(S()), nId, c); t.(nNew := t.nNew + 1))
    {
      assert EntryIndexed(S(), nId);
      mapInfo := mapInfo[nId := mapInfo[nId].(nRefCount := 1)];
      SetCell(vvNew, c, nId);
      nNew := nNew + 1;
    }

    method MakeTried(nId: int)
      requires Valid() && nId in mapInfo && !mapInfo[nId].fInTried
      modifies this, vvTried, vvNew
      ensures S() == Good.MakeTried(old(S()), nId)
    {
      ghost var s := S();
      Tables.StripKeeps(s, nId);
      assert EntryIndexed(s, nId);
      RemoveFromNew(nId);
      assert mapInfo[nId].nRefCount == 0;

      var c := Hasher(net, nKey).TriedCell(mapInfo[nId].addr.service);
      if vvTried[c.bucket, c.pos] != -1 {
        Evict(c, {nId}, 1);
      }
      assert vvTried[c.bucket, c.pos] == -1;
      assert nId in mapInfo && mapInfo[nId].addr.service == s.info[nId].addr.service;
      Seat(nId, c);
    }

    method Seat(nId: int, c: Cell)
      requires Shaped() && Indexed(S()) && nId in mapInfo && c == S().h.TriedCell(mapInfo[nId].addr.service)
      modifies this, vvTried
      ensures S() == Tables.Seat(old(S()), nId)
    {
      assert EntryIndexed(S(), nId);
      SetCell(vvTried, c, nId);
      nTried := nTried + 1;
      mapInfo := mapInfo[nId := mapInfo[nId].(fInTried := true)];
    }

    ghost predicate Missed(s: State, nId: int, b: int)
      requires nId in s.info && 0 <= b
    {
      s.h.NewCell(ServiceOf(s.info[nId]), b) !in Refs(s, nId)
    }

    /** The entry is in none of the `n` buckets from nRnd on. */
    ghost predicate MissedFrom(s: State, nId: int, nRnd: nat, n: nat)
      requires nId in s.info
    {
      forall b {:trigger Missed(s, nId, b)} | 0 <= b < NEW_BUCKET_COUNT && Offset(b, nRnd) < n :: Missed(s, nId, b)
    }

    /** How many buckets after nRnd bucket `b` is searched. */
    function Offset(b: int, nRnd: int): int {
      (b - nRnd) % NEW_BUCKET_COUNT
    }

    lemma {:induction false} OffsetIs(b: int, nRnd: int, n: int)
      requires 0 <= b < NEW_BUCKET_COUNT && Offset(b, nRnd) == n
      ensures b == (n + nRnd) % NEW_BUCKET_COUNT
    {
    }

    lemma {:induction false} MissedNext(s: State, nId: int, nRnd: nat, n: nat)
      requires nId in s.info && MissedFrom(s, nId, nRnd, n) && Missed(s, nId, (n + nRnd) % NEW_BUCKET_COUNT)
      ensures MissedFrom(s, nId, nRnd, n + 1)
    {
      forall b | 0 <= b < NEW_BUCKET_COUNT && Offset(b, nRnd) < n + 1 ensures Missed(s, nId, b) {
        if Offset(b, nRnd) == n {
          OffsetIs(b, nRnd, n);
        }
      }
    }

    /** Search the new buckets for the entry, from bucket nRnd on; -1 if it is in none of them. */
    method FindNewBucket(nId: int, nRnd: nat) returns (nUBucket: int)
      requires Shaped() && Indexed(S()) && Tables.Placed(S()) && nId in mapInfo && nRnd < NEW_BUCKET_COUNT
      ensures nUBucket == -1 <==> Refs(S(), nId) == {}
    {
      ghost var s := S();
      assert EntryIndexed(s, nId);
      var a := mapInfo[nId].addr.service;
      nUBucket := -1;
      for n := 0 to NEW_BUCKET_COUNT
        invariant nUBucket == -1
        invariant MissedFrom(s, nId, nRnd, n)
      {
        var nB := (n + nRnd) % NEW_BUCKET_COUNT;
        var c := Hasher(net, nKey).NewCell(a, nB);
        Tables.RefsStep(s, nId, nB);
        if vvNew[c.bucket, c.pos] == nId {
          assert c in s.newTable;
          nUBucket := nB;
          return;
        }
        assert !(c in s.newTable && s.newTable[c] == nId);
        MissedNext(s, nId, nRnd, n);
      }
      forall c | c in s.newTable ensures s.newTable[c] != nId {
        assert NewCellOk(s, c);
        assert Missed(s, nId, c.bucket);
      }
    }

    /** Record a success in the entry. */
    method Mark(nId: int, nTime: int)
      requires Shaped() && nId in mapInfo
      modifies this
      ensures S() == Good.Marked(old(S()), nId, nTime)
    {
      mapInfo := mapInfo[nId := mapInfo[nId].(nLastSuccess := nTime)];
      mapInfo := mapInfo[nId := mapInfo[nId].(nLastTry := nTime)];
      mapInfo := mapInfo[nId := mapInfo[nId].(nAttempts := 0)];
    }

    method Good_(addr: Service, nTime: int, nRnd: nat)
      requires Valid() && nRnd < NEW_BUCKET_COUNT
      modifies this, vvTried, vvNew
      ensures S() == Good.Good(old(S()), addr, nTime)
    {
      ghost var s := S();
      var found, nId := Find(addr.ip);
      if !found {
        return;
      }
      if mapInfo[nId].addr.service != addr {
        return;
      }
      Good.UpdateKeeps(s, nId, Good.Marked(s, nId, nTime).info[nId], {}, 0);
      Mark(nId, nTime);
      if mapInfo[nId].fInTried {
        return;
      }
      assert NewEntryOk(S(), nId, {});
      var nUBucket := FindNewBucket(nId, nRnd);
      if nUBucket == -1 {
        // A new entry has at least one reference, so the early return taken here is never reached.
        assert false;
      }
      MakeTried(nId);
    }

    /** Put the entry into new cell `c`, which is free. */
    method Attach(nId: int, c: Cell)
      requires Shaped() && Indexed(S()) && nId in mapInfo
      requires 0 <= c.bucket < NEW_BUCKET_COUNT && 0 <= c.pos < BUCKET_SIZE
      modifies this, vvNew
      ensures S() == Tables.Attach(old(S()), nId, c)
    {
      assert EntryIndexed(S(), nId);
      mapInfo := mapInfo[nId := mapInfo[nId].(nRefCount := mapInfo[nId].nRefCount + 1)];
      SetCell(vvNew, c, nId);
    }

    /** Refresh the time and the services of a known entry from an announcement. */
    method Refresh(nId: int, addr: Address, nTimePenalty: int, now: int)
      requires Shaped() && nId in mapInfo
      modifies this
      ensures S() == Update(old(S()), nId, Runs.Refresh(old(mapInfo)[nId], addr, nTimePenalty, now))
    {
      var fCurrentlyOnline := now - addr.nTime < 24 * 60 * 60;
      var nUpdateInterval := if fCurrentlyOnline then 60 * 60 else 24 * 60 * 60;
      var i := mapInfo[nId];
      if addr.nTime != 0 && (i.addr.nTime == 0 || i.addr.nTime < addr.nTime - nUpdateInterval - nTimePenalty) {
        i := i.(addr := i.addr.(nTime := ToUint32(Runs.Max0(addr.nTime - nTimePenalty))));
      }
      i := i.(addr := i.addr.(nServices := i.addr.nServices + addr.nServices));
      mapInfo := mapInfo[nId := i];
    }

    /** Give the entry a reference in cell `c` if that is free or may be taken over. */
    method Reference(nId: int, c: Cell, now: int)
      requires Shaped() && nId in mapInfo && Consistent(S(), Runs.LooseOf(S(), nId), 0)
      requires !mapInfo[nId].fInTried && mapInfo[nId].nRefCount < NEW_BUCKETS_PER_ADDRESS
      requires 0 <= c.bucket < NEW_BUCKET_COUNT && c == S().h.NewCell(mapInfo[nId].addr.service, c.bucket)
      modifies this, vvNew
      ensures S() == Runs.Reference(old(S()), nId, c, now)
    {
      ghost var s := S();
      assert EntryIndexed(s, nId);
      if vvNew[c.bucket, c.pos] != nId {
        var fInsert := vvNew[c.bucket, c.pos] == -1;
        if !fInsert {
          assert c in s.newTable && NewCellOk(s, c);
          var infoExisting := mapInfo[vvNew[c.bucket, c.pos]];
          if Runs.IsTerrible(infoExisting, now) || (infoExisting.nRefCount > 1 && mapInfo[nId].nRefCount == 0) {
            fInsert := true;
          }
        }
        assert fInsert <==> Runs.Takes(s, nId, c, now);
        if fInsert {
          Tables.ClearNewKeeps(s, c, Runs.LooseOf(s, nId), 0);
          ClearNew(c, Runs.LooseOf(s, nId), 0);
          Attach(nId, c);
        } else {
          if mapInfo[nId].nRefCount == 0 {
            Delete(nId);
          }
        }
      } else {
        assert c in s.newTable && s.newTable[c] == nId;
      }
    }

    /** Is no further reference to the known entry wanted? */
    method Declines(nId: int, addr: Address, rand: nat) returns (fDecline: bool)
      requires nId in mapInfo
      ensures fDecline == Runs.Declines(mapInfo[nId], addr, rand)
    {
      var info := mapInfo[nId];
      if addr.nTime == 0 || (info.addr.nTime != 0 && addr.nTime <= info.addr.nTime) {
        return true;
      }
      if info.fInTried {
        return true;
      }
      if info.nRefCount == NEW_BUCKETS_PER_ADDRESS {
        return true;
      }
      var nFactor := Factor(info.nRefCount);
      return nFactor > 1 && Runs.Draw(rand, nFactor) != 0;
    }

    /** Enter an unknown address, aged by the penalty and without a reference yet. */
    method CreateNew(addr: Address, source: nat, nTimePenalty: int) returns (nId: int)
      requires Shaped()
      modifies this
      ensures S() == AddrManState.Create(old(S()), Runs.Aged(addr, nTimePenalty), source).(nNew := old(nNew) + 1)
      ensures nId == old(nIdCount)
    {
      nId := Create(addr, source);
      mapInfo := mapInfo[nId := mapInfo[nId].(addr := mapInfo[nId].addr.(nTime := ToUint32(Runs.Max0(addr.nTime - nTimePenalty))))];
      nNew := nNew + 1;
    }

    /** A known address is announced again. */
    method AddKnown(nId: int, addr: Address, source: nat, nTimePenalty: int, now: int, rand: nat)
      requires Valid() && net.routable(addr.service.ip)
      requires addr.service.ip in mapAddr && mapAddr[addr.service.ip] == nId && nId in mapInfo
      modifies this, vvNew
      ensures S() == Runs.Add(old(S()), addr, source, nTimePenalty, now, rand).0
    {
      Runs.KnownRefreshes(S(), addr, nTimePenalty, now);
      Refresh(nId, addr, nTimePenalty, now);
      var fDecline := Declines(nId, addr, rand);
      if !fDecline {
        Reference(nId, Runs.AskedCell(Hasher(net, nKey), mapInfo[nId].addr.service, source), now);
      }
    }

    /** An unknown address is announced. */
    method AddUnknown(addr: Address, source: nat, nTimePenalty: int, now: int, ghost rand: nat)
      requires Valid() && net.routable(addr.service.ip) && addr.service.ip !in mapAddr
      modifies this, vvNew
      ensures S() == Runs.Add(old(S()), addr, source, nTimePenalty, now, rand).0
    {
      Runs.UnknownStartsLoose(S(), addr, source, nTimePenalty);
      var nId := CreateNew(addr, source, nTimePenalty);
      Reference(nId, Runs.AskedCell(Hasher(net, nKey), mapInfo[nId].addr.service, source), now);
    }

    method Add_(addr: Address, source: nat, nTimePenalty: int, now: int, rand: nat) returns (fNew: bool)
      requires Valid()
      modifies this, vvNew
      ensures (S(), fNew) == Runs.Add(old(S()), addr, source, nTimePenalty, now, rand)
    {
      Runs.AddEffect(S(), addr, source, nTimePenalty, now, rand);
      if !net.routable(addr.service.ip) {
        return false;
      }
      var found, nId := Find(addr.service.ip);
      fNew := !found;
      if found {
        AddKnown(nId, addr, source, nTimePenalty, now, rand);
      } else {
        AddUnknown(addr, source, nTimePenalty, now, rand);
      }
    }

    static method Factor(nRefCount: int) returns (nFactor: nat)
      ensures nFactor == Runs.Pow2(nRefCount)
    {
      nFactor := 1;
      var n := 0;
      while n < nRefCount
        invariant 0 <= n && (n <= nRefCount || n == 0)
        invariant nFactor == Runs.Pow2(n)
      {
        nFactor := nFactor * 2;
        n := n + 1;
      }
    }

    method Attempt_(addr: Service, nTime: int)
      requires Valid()
      modifies this
      ensures S() == Runs.Attempt(old(S()), addr, nTime)
    {
      var found, nId := Find(addr.ip);
      if !found {
        return;
      }
      if mapInfo[nId].addr.service != addr {
        return;
      }
      mapInfo := mapInfo[nId := mapInfo[nId].(nLastTry := nTime)];
      mapInfo := mapInfo[nId := mapInfo[nId].(nAttempts := mapInfo[nId].nAttempts + 1)];
    }

    method Connected_(addr: Service, nTime: int)
      requires Valid()
      modifies this
      ensures S() == Runs.Connected(old(S()), addr, nTime)
    {
      var found, nId := Find(addr.ip);
      if !found {
        return;
      }
      if mapInfo[nId].addr.service != addr {
        return;
      }
      if nTime - mapInfo[nId].addr.nTime > 20 * 60 {
        mapInfo := mapInfo[nId := mapInfo[nId].(addr := mapInfo[nId].addr.(nTime := ToUint32(nTime)))];
      }
    }

    /** One round of GetAddr_: move a random later entry to position `n` and list it if it is good enough. */
    method GetAddrRound(n: nat, r: nat, vAddr: seq<Address>, now: int) returns (vAddr': seq<Address>)
      requires Indexed(S()) && n < |vRandom|
      modifies this
      ensures (S(), vAddr') == Runs.GetAddrRound(old(S()), n, r, vAddr, now)
    {
      var nRndPos := Runs.Draw(r, |vRandom| - n) + n;
      SwapRandomIndexed(S(), n, nRndPos);
      SwapRandom(n, nRndPos);
      assert SlotIndexed(S(), n);
      assert vRandom[n] in mapInfo;
      var ai := mapInfo[vRandom[n]];
      vAddr' := vAddr;
      if !Runs.IsTerrible(ai, now) {
        vAddr' := vAddr' + [ai.addr];
      }
    }

    method GetAddr_(rand: nat -> nat, now: int) returns (vAddr: seq<Address>)
      requires Valid()
      modifies this
      ensures (S(), vAddr) == Runs.GetAddr(old(S()), rand, now)
    {
      var nNodes := GETADDR_MAX_PCT * |vRandom| / 100;
      if nNodes > GETADDR_MAX {
        nNodes := GETADDR_MAX;
      }
      vAddr := [];
      var n := 0;
      while n < |vRandom|
        invariant 0 <= n <= |vRandom| && Indexed(S())
        invariant Runs.GetAddrFrom(S(), n, nNodes, rand, vAddr, now) == Runs.GetAddr(old(S()), rand, now)
      {
        if |vAddr| >= nNodes {
          break;
        }
        vAddr := GetAddrRound(n, rand(n), vAddr, now);
        n := n + 1;
      }
    }
  }
}
