/**
Writing the address manager to a file and reading it back, in the loops that do it.
*/
module AddrManStore {
  import opened AddrManState
  import opened AddrManTables
  import opened AddrManDisk
  import opened AddrManRoundTrip
  import Format = AddrManFormat
  import Runs = AddrManRuns
  import AddrMan

  //////////////////////////////////////////////////////////////////////////////
  //
  // Serialize
  //
  //////////////////////////////////////////////////////////////////////////////

  /** The file from which Unserialize makes the same manager again. */
  method Serialize(m: AddrMan.CAddrMan) returns (f: AddrFile)
    requires m.Shaped() && Inv(m.S())
    ensures f == FileOf(m.S()) && Format.Laid(m.S(), f)
  {
    ghost var s := m.S();
    ReadyToWrite(s);
    Format.FileLaid(s);
    var nUBuckets := FlipBit30(NEW_BUCKET_COUNT);
    var newEntries, mapUnkIds := SerializeNew(m, s);
    var triedEntries := SerializeTried(m, s);
    var buckets := SerializeBuckets(m, mapUnkIds, s);
    f := AddrFile(1, m.nKey, newEntries, triedEntries, nUBuckets, buckets);
  }

  /** What the assertions in Serialize rest on. */
  lemma {:induction false} ReadyToWrite(s: State)
    requires Inv(s)
    ensures s.nNew == NewCount(s) && s.nTried == |Order(s, true, s.nIdCount)|
    ensures forall id | id in s.info :: 0 <= id < s.nIdCount
    ensures forall c | c in s.newTable :: s.newTable[c] in s.info
  {
    CountsWritten(s);
    forall id | id in s.info ensures 0 <= id < s.nIdCount {
      assert EntryIndexed(s, id);
    }
    forall c | c in s.newTable ensures s.newTable[c] in s.info {
      assert NewCellOk(s, c);
    }
  }

  method SerializeBuckets(m: AddrMan.CAddrMan, mapUnkIds: map<int, int>, ghost s: State) returns (buckets: seq<seq<int>>)
    requires m.Shaped() && s == m.S() && forall c | c in s.newTable :: s.newTable[c] in s.info
    requires forall id | id in s.info :: id in mapUnkIds && mapUnkIds[id] == Rank(s, id)
    ensures buckets == FileOf(s).buckets
  {
    buckets := [];
    for bucket := 0 to NEW_BUCKET_COUNT
      invariant |buckets| == bucket && forall b | 0 <= b < bucket :: buckets[b] == Row(s, b, BUCKET_SIZE)
    {
      var row := SerializeBucket(m, bucket, mapUnkIds, s);
      buckets := buckets + [row];
    }
  }

  /** The `n` entries of the ids below `k` have been written. */
  ghost predicate WrittenTo(s: State, fInTried: bool, k: nat, entries: seq<Saved>, n: int) {
    entries == Entries(s, Order(s, fInTried, k)) && n == |Order(s, fInTried, k)|
  }

  /** An entry that is yet to be written is counted. */
  lemma {:induction false} MoreToWrite(s: State, fInTried: bool, id: int, k: nat)
    requires 0 <= id < k && Written(s, fInTried, id)
    ensures |Order(s, fInTried, id)| < |Order(s, fInTried, k)|
  {
    OrderAt(s, fInTried, id, k);
  }

  lemma {:induction false} WrittenNext(s: State, fInTried: bool, k: nat, entries: seq<Saved>, n: int, entries': seq<Saved>, n': int)
    requires 0 < k && WrittenTo(s, fInTried, k - 1, entries, n)
    requires if Written(s, fInTried, k - 1) then entries' == entries + [Save(s.info[k - 1])] && n' == n + 1
             else entries' == entries && n' == n
    ensures WrittenTo(s, fInTried, k, entries', n')
  {
    var q := Order(s, fInTried, k - 1);
    if Written(s, fInTried, k - 1) {
      assert Entries(s, q + [k - 1]) == Entries(s, q) + [Save(s.info[k - 1])];
    }
  }

  /** The ids of mapInfo are visited in their order. */
  method SerializeNew(m: AddrMan.CAddrMan, ghost s: State) returns (entries: seq<Saved>, mapUnkIds: map<int, int>)
    requires s == m.S() && m.nNew == NewCount(s) && forall id | id in m.mapInfo :: 0 <= id < m.nIdCount
    ensures entries == Entries(s, Order(s, false, s.nIdCount))
    ensures forall id | id in s.info :: id in mapUnkIds && mapUnkIds[id] == Rank(s, id)
  {
    entries, mapUnkIds := [], map[];
    var mapInfo, nIds := m.mapInfo, 0;
    for id := 0 to m.nIdCount
      invariant WrittenTo(s, false, id, entries, nIds)
      invariant forall x | 0 <= x < id && x in s.info :: x in mapUnkIds && mapUnkIds[x] == Rank(s, x)
    {
      ghost var before, nBefore := entries, nIds;
      if id in mapInfo {
        mapUnkIds := mapUnkIds[id := nIds];
        var info := mapInfo[id];
        if info.nRefCount != 0 {
          MoreToWrite(s, false, id, m.nIdCount);
          assert nIds != m.nNew;
          entries := entries + [Save(info)];
          nIds := nIds + 1;
        }
      }
      WrittenNext(s, false, id + 1, before, nBefore, entries, nIds);
    }
  }

  method SerializeTried(m: AddrMan.CAddrMan, ghost s: State) returns (entries: seq<Saved>)
    requires s == m.S() && m.nTried == |Order(s, true, s.nIdCount)|
    ensures entries == Entries(s, Order(s, true, s.nIdCount))
  {
    entries := [];
    var mapInfo, nIds := m.mapInfo, 0;
    for id := 0 to m.nIdCount
      invariant WrittenTo(s, true, id, entries, nIds)
    {
      ghost var before, nBefore := entries, nIds;
      if id in mapInfo {
        var info := mapInfo[id];
        if info.fInTried {
          MoreToWrite(s, true, id, m.nIdCount);
          assert nIds != m.nTried;
          entries := entries + [Save(info)];
          nIds := nIds + 1;
        }
      }
      WrittenNext(s, true, id + 1, before, nBefore, entries, nIds);
    }
  }

  method SerializeBucket(m: AddrMan.CAddrMan, bucket: nat, mapUnkIds: map<int, int>, ghost s: State) returns (row: seq<int>)
    requires m.Shaped() && s == m.S() && bucket < NEW_BUCKET_COUNT && forall c | c in s.newTable :: s.newTable[c] in s.info
    requires forall id | id in s.info :: id in mapUnkIds && mapUnkIds[id] == Rank(s, id)
    ensures row == Row(s, bucket, BUCKET_SIZE)
  {
    row := [];
    for i := 0 to BUCKET_SIZE
      invariant row == Row(s, bucket, i)
    {
      if m.vvNew[bucket, i] != -1 {
        assert Cell(bucket, i) in s.newTable;
        var nIndex := mapUnkIds[m.vvNew[bucket, i]];
        row := row + [nIndex];
      } else {
        assert Cell(bucket, i) !in s.newTable;
      }
    }
  }

  //////////////////////////////////////////////////////////////////////////////
  //
  // Unserialize
  //
  //////////////////////////////////////////////////////////////////////////////

  /** The counters have the values that the file announces, and the next id is still open. */
  ghost function Announced(s: State, f: AddrFile, nIdCount: nat): State {
    s.(nNew := |f.newEntries|, nTried := |f.triedEntries|, nIdCount := nIdCount)
  }

  /**
  Into a manager without entries and addresses, which are what Clear leaves as they are.
  `nRandomKey` is the key that Clear draws.
  */
  method Unserialize(m: AddrMan.CAddrMan, f: AddrFile, nRandomKey: nat)
    requires m.Shaped() && m.mapInfo == map[] && m.mapAddr == map[] && Shaped(f)
    modifies m, m.vvNew, m.vvTried
    ensures m.Shaped() && m.S() == Restore(m.net, f) && Format.Recovered(m.S(), ReadIn(m.net, f), f)
    ensures Inv(m.S()) <==> forall id | id in ReadIn(m.net, f).info && id !in LooseIds(ReadIn(m.net, f)) ::
                              KeptAlone(ReadIn(m.net, f), id)
  {
    var nUBuckets := UnserializeHeader(m, f, nRandomKey);
    ghost var s, t, u := Stages(m.net, f);
    UnserializeNew(m, f, nUBuckets);
    UnserializeTried(m, f, s);
    UnserializeRows(m, f, nUBuckets, t);
    PruneAll(m, u);
    RestoreExact(m.net, f);
    Format.RestoreHolds(m.net, f);
  }

  /** What stands in front of the entries. */
  method UnserializeHeader(m: AddrMan.CAddrMan, f: AddrFile, nRandomKey: nat) returns (nUBuckets: int)
    requires m.Shaped() && m.mapInfo == map[] && m.mapAddr == map[]
    modifies m, m.vvNew, m.vvTried
    ensures m.Shaped() && m.nKey == f.nKey && nUBuckets == BucketCount(f)
    ensures m.S() == Announced(Empty(Hasher(m.net, f.nKey)), f, 0)
  {
    m.Clear(nRandomKey);
    m.nKey := f.nKey;
    m.nNew := |f.newEntries|;
    m.nTried := |f.triedEntries|;
    nUBuckets := f.nUBuckets;
    if f.nVersion != 0 {
      nUBuckets := FlipBit30(nUBuckets);
    }
  }

  /** The states between the parts of Unserialize. */
  lemma {:induction false} Stages(net: Net, f: AddrFile) returns (s: State, t: State, u: State)
    requires Shaped(f)
    ensures s == LoadAllNew(Hasher(net, f.nKey), f, |f.newEntries|) && s.nIdCount == s.nNew == |f.newEntries|
    ensures s.nTried == 0 && s.h == Hasher(net, f.nKey)
    ensures t == LoadAllTried(s, f, |f.triedEntries|)
    ensures u == (if Usable(f) then ReferRows(t, f, |f.buckets|) else t) && Loading(u)
    ensures Restore(net, f) == Prune(u, u.nIdCount)
  {
    ReadInLoads(net, f);
    s := LoadAllNew(Hasher(net, f.nKey), f, |f.newEntries|);
    AllNewKeeps(Hasher(net, f.nKey), f, |f.newEntries|);
    t := LoadAllTried(s, f, |f.triedEntries|);
    u := ReadIn(net, f);
  }

  method UnserializeNew(m: AddrMan.CAddrMan, f: AddrFile, nUBuckets: int)
    requires m.Shaped() && nUBuckets == BucketCount(f) && m.nKey == f.nKey
    requires m.S() == Announced(Empty(Hasher(m.net, f.nKey)), f, 0)
    modifies m, m.vvNew
    ensures m.Shaped() && m.nKey == f.nKey
    ensures m.S() == Announced(LoadAllNew(Hasher(m.net, f.nKey), f, |f.newEntries|), f, |f.newEntries|)
  {
    ghost var h := Hasher(m.net, f.nKey);
    for n := 0 to |f.newEntries|
      invariant m.Shaped() && m.nKey == f.nKey && m.S() == Announced(LoadAllNew(h, f, n), f, 0)
    {
      AllNewKeeps(h, f, n);
      UnserializeEntry(m, f, n, nUBuckets, LoadAllNew(h, f, n));
    }
    m.nIdCount := |f.newEntries|;
    AllNewKeeps(h, f, |f.newEntries|);
  }

  /** Enter an entry into the indexes. */
  method Remember(m: AddrMan.CAddrMan, id: int, r: Saved, fInTried: bool)
    modifies m
    ensures m.S() == old(m.S()).(info := old(m.mapInfo)[id := Loaded(r, fInTried, |old(m.vRandom)|)],
                                 addr := old(m.mapAddr)[Ip(r) := id], random := old(m.vRandom) + [id])
  {
    m.mapInfo := m.mapInfo[id := Loaded(r, fInTried, |m.vRandom|)];
    m.mapAddr := m.mapAddr[Ip(r) := id];
    m.vRandom := m.vRandom + [id];
  }

  /** Refer to a new entry from the cell, if that is free. */
  method TryReference(m: AddrMan.CAddrMan, id: int, c: Cell)
    requires m.Shaped() && id in m.mapInfo && 0 <= c.bucket < NEW_BUCKET_COUNT && 0 <= c.pos < BUCKET_SIZE && id != -1
    modifies m, m.vvNew
    ensures m.Shaped() && m.S() == if c in old(m.S()).newTable then old(m.S()) else Referenced(old(m.S()), id, c)
  {
    if m.vvNew[c.bucket, c.pos] == -1 {
      assert c !in m.S().newTable;
      AddrMan.SetCell(m.vvNew, c, id);
      m.mapInfo := m.mapInfo[id := m.mapInfo[id].(nRefCount := m.mapInfo[id].nRefCount + 1)];
    } else {
      assert c in m.S().newTable;
    }
  }

  method UnserializeEntry(m: AddrMan.CAddrMan, f: AddrFile, n: nat, nUBuckets: int, ghost s: State)
    requires m.Shaped() && nUBuckets == BucketCount(f) && m.nKey == f.nKey && n < |f.newEntries|
    requires s.nIdCount == n && s.h == Hasher(m.net, f.nKey) && m.S() == Announced(s, f, 0)
    modifies m, m.vvNew
    ensures m.Shaped() && m.nKey == f.nKey && m.S() == Announced(LoadNew(s, f.newEntries[n], Usable(f)), f, 0)
  {
    var r := f.newEntries[n];
    Remember(m, n, r, false);
    if f.nVersion != 1 || nUBuckets != NEW_BUCKET_COUNT {
      TryReference(m, n, Runs.AskedCell(Hasher(m.net, m.nKey), r.addr.service, r.source));
    }
  }

  method UnserializeTried(m: AddrMan.CAddrMan, f: AddrFile, ghost s: State)
    requires m.Shaped() && m.nKey == f.nKey && m.S() == Announced(s, f, |f.newEntries|)
    requires s.nIdCount == s.nNew == |f.newEntries| && s.nTried == 0
    modifies m, m.vvTried
    ensures m.Shaped() && m.nKey == f.nKey
    ensures m.S() == LoadAllTried(s, f, |f.triedEntries|)
  {
    var nLost := 0;
    for n := 0 to |f.triedEntries|
      invariant m.Shaped() && m.nKey == f.nKey && m.nTried == |f.triedEntries| && LoadAllTried(s, f, n).nTried == n - nLost
      invariant m.S() == LoadAllTried(s, f, n).(nTried := m.nTried)
    {
      var lost := UnserializeTriedEntry(m, f.triedEntries[n], LoadAllTried(s, f, n));
      if lost {
        nLost := nLost + 1;
      }
    }
    m.nTried := m.nTried - nLost;
  }

  /** An entry whose cell is taken is lost. */
  method UnserializeTriedEntry(m: AddrMan.CAddrMan, r: Saved, ghost t: State) returns (lost: bool)
    requires m.Shaped() && m.S() == t.(nTried := m.nTried)
    modifies m, m.vvTried
    ensures m.Shaped() && m.nKey == old(m.nKey) && m.nTried == old(m.nTried) && m.S() == LoadTried(t, r).(nTried := m.nTried)
    ensures LoadTried(t, r).nTried == if lost then t.nTried else t.nTried + 1
  {
    var c := Hasher(m.net, m.nKey).TriedCell(r.addr.service);
    lost := m.vvTried[c.bucket, c.pos] != -1;
    assert lost <==> c in t.triedTable;
    if !lost {
      var nId := m.nIdCount;
      Remember(m, nId, r, true);
      AddrMan.SetCell(m.vvTried, c, nId);
      m.nIdCount := nId + 1;
    }
  }

  method UnserializeRows(m: AddrMan.CAddrMan, f: AddrFile, nUBuckets: int, ghost s: State)
    requires m.Shaped() && Shaped(f) && nUBuckets == BucketCount(f) && m.nKey == f.nKey && s == m.S()
    modifies m, m.vvNew
    ensures m.Shaped() && m.nKey == f.nKey
    ensures m.S() == if Usable(f) then ReferRows(s, f, |f.buckets|) else s
  {
    for bucket := 0 to |f.buckets|
      invariant m.Shaped() && m.nKey == f.nKey
      invariant m.S() == if Usable(f) then ReferRows(s, f, bucket) else s
    {
      UnserializeRow(m, f, bucket, nUBuckets);
    }
  }

  method UnserializeRow(m: AddrMan.CAddrMan, f: AddrFile, bucket: nat, nUBuckets: int)
    requires m.Shaped() && nUBuckets == BucketCount(f) && m.nKey == f.nKey
    requires bucket < |f.buckets| == nUBuckets
    modifies m, m.vvNew
    ensures m.Shaped() && m.nKey == f.nKey
    ensures m.S() == if Usable(f) then ReferRow(old(m.S()), bucket, f.buckets[bucket], |f.newEntries|) else old(m.S())
  {
    ghost var s := m.S();
    var row, nNew := f.buckets[bucket], |f.newEntries|;
    for n := 0 to |row|
      invariant m.Shaped() && m.nKey == f.nKey
      invariant m.S() == if Usable(f) then ReferRow(s, bucket, row[..n], nNew) else s
    {
      var nIndex := row[n];
      assert row[..n + 1][..n] == row[..n];
      if 0 <= nIndex < nNew && nIndex in m.mapInfo {
        UnserializeReference(m, f, bucket, nUBuckets, nIndex);
      }
    }
    assert row[..|row|] == row;
  }

  method UnserializeReference(m: AddrMan.CAddrMan, f: AddrFile, bucket: nat, nUBuckets: int, nIndex: int)
    requires m.Shaped() && nUBuckets == BucketCount(f) && m.nKey == f.nKey && bucket < nUBuckets
    requires 0 <= nIndex < |f.newEntries| && nIndex in m.mapInfo
    modifies m, m.vvNew
    ensures m.Shaped() && m.nKey == f.nKey
    ensures m.S() == if Usable(f) then Refer(old(m.S()), bucket, nIndex, |f.newEntries|) else old(m.S())
  {
    ghost var s := m.S();
    var h := Hasher(m.net, m.nKey);
    var c := h.NewCell(m.mapInfo[nIndex].addr.service, bucket);
    if f.nVersion == 1 && nUBuckets == NEW_BUCKET_COUNT {
      if m.vvNew[c.bucket, c.pos] == -1 && m.mapInfo[nIndex].nRefCount < NEW_BUCKETS_PER_ADDRESS {
        assert c !in s.newTable;
        m.mapInfo := m.mapInfo[nIndex := m.mapInfo[nIndex].(nRefCount := m.mapInfo[nIndex].nRefCount + 1)];
        AddrMan.SetCell(m.vvNew, c, nIndex);
      } else {
        assert m.vvNew[c.bucket, c.pos] != -1 ==> c in s.newTable;
      }
    }
  }

  /** Delete the new entries without a reference, in the order of their ids. */
  method PruneAll(m: AddrMan.CAddrMan, ghost s: State)
    requires m.Shaped() && s == m.S() && Loading(s)
    modifies m
    ensures m.Shaped() && m.S() == Prune(s, s.nIdCount)
  {
    var n := m.nIdCount;
    for id := 0 to n
      invariant m.Shaped() && m.S() == Prune(s, id)
    {
      PruneKeeps(s, id);
      if id in m.mapInfo && !m.mapInfo[id].fInTried && m.mapInfo[id].nRefCount == 0 {
        m.Delete(id);
      }
    }
  }
}
