/**
Add_, Attempt_, Connected_ and GetAddr_ on the manager's state, and what every run of the public
operations keeps.
*/
module AddrManRuns {
  import opened AddrManState
  import opened AddrManTables
  import opened AddrManGood
  import opened SetFacts

  const DAY := 24 * 60 * 60

  /** Are the statistics of an entry bad enough for it to be forgotten? */
  predicate IsTerrible(i: AddrInfo, now: int) {
    if i.nLastTry != 0 && i.nLastTry >= now - 60 then false
    else
      || i.addr.nTime > now + 10 * 60
      || i.addr.nTime == 0 || now - i.addr.nTime > HORIZON_DAYS * DAY
      || (i.nLastSuccess == 0 && i.nAttempts >= RETRIES)
      || (now - i.nLastSuccess > MIN_FAIL_DAYS * DAY && i.nAttempts >= MAX_FAILURES)
  }

  //////////////////////////////////////////////////////////////////////////////
  //
  // Add_
  //
  //////////////////////////////////////////////////////////////////////////////

  /** A draw from [0, size): any number in that range, depending on the random number `r`. */
  function Draw(r: nat, size: nat): (d: nat)
    ensures size > 0 ==> d < size
  {
    if r < size then r else 0
  }

  function Pow2(n: int): nat {
    if n <= 0 then 1 else 2 * Pow2(n - 1)
  }

  function Max0(x: int): nat { if x < 0 then 0 else x }

  /** What an announcement of `addr` changes in the entry that already holds it. */
  function Refresh(i: AddrInfo, addr: Address, penalty: int, now: int): AddrInfo {
    var interval := if now - addr.nTime < DAY then 60 * 60 else DAY;
    var nTime :=
      if addr.nTime != 0 && (i.addr.nTime == 0 || i.addr.nTime < addr.nTime - interval - penalty)
      then ToUint32(Max0(addr.nTime - penalty)) else i.addr.nTime;
    i.(addr := i.addr.(nTime := nTime, nServices := i.addr.nServices + addr.nServices))
  }

  /** Is no further reference to the known entry `i` wanted?  `rand` is the random draw. */
  predicate Declines(i: AddrInfo, addr: Address, rand: nat) {
    || addr.nTime == 0
    || (i.addr.nTime != 0 && addr.nTime <= i.addr.nTime)
    || i.fInTried
    || i.nRefCount == NEW_BUCKETS_PER_ADDRESS
    || (Pow2(i.nRefCount) > 1 && Draw(rand, Pow2(i.nRefCount)) != 0)
  }

  /** May entry `id` take new cell `c`? */
  ghost predicate Takes(s: State, id: int, c: Cell, now: int)
    requires id in s.info
  {
    c in s.newTable && s.newTable[c] in s.info ==>
      var existing := s.info[s.newTable[c]];
      IsTerrible(existing, now) || (existing.nRefCount > 1 && s.info[id].nRefCount == 0)
  }

  ghost function LooseOf(s: State, id: int): set<int>
    requires id in s.info
  {
    if s.info[id].nRefCount == 0 then {id} else {}
  }

  lemma {:induction false} DeleteDemotes(s: State, id: int)
    requires Indexed(s) && id in s.info
    ensures OnlyDemotes(s, Delete(s, id), {})
  {
    DeleteIndexed(s, id);
    var t := Delete(s, id);
    forall x | x in t.info ensures x in s.info && Demoted(s.info[x], t.info[x]) {
      assert x in s.info - {id};
    }
  }

  /** Forget the entry `id`, which has no reference. */
  ghost function Drop(s: State, id: int): (t: State)
    requires Consistent(s, {id}, 0) && id in s.info
    ensures Consistent(t, {}, 0) && OnlyDemotes(s, t, {})
    ensures t.info.Keys == s.info.Keys - {id} && t.triedTable == s.triedTable
  {
    DeleteKeeps(s, id, {id}, 0);
    assert {id} - {id} == {};
    DeleteIndexed(s, id);
    DeleteDemotes(s, id);
    Delete(s, id)
  }

  /** Clear new cell `c` and put entry `id` there. */
  ghost function Replace(s: State, id: int, c: Cell, loose: set<int>): (t: State)
    requires Consistent(s, loose, 0) && id in s.info && loose <= {id} && (c in s.newTable ==> s.newTable[c] != id)
    requires !s.info[id].fInTried && s.info[id].nRefCount < NEW_BUCKETS_PER_ADDRESS
    requires 0 <= c.bucket < NEW_BUCKET_COUNT && c == s.h.NewCell(ServiceOf(s.info[id]), c.bucket)
    ensures Consistent(t, {}, 0) && OnlyDemotes(s, t, {})
    ensures t.info.Keys == s.info.Keys - ClearNewLoses(s, c) && id in t.info && t.triedTable == s.triedTable
  {
    ClearNewKeeps(s, c, loose, 0);
    AttachKeeps(ClearNew(s, c), id, c, loose, 0);
    assert loose - {id} == {};
    Attach(ClearNew(s, c), id, c)
  }

  /** Give entry `id` one more reference, in cell `c`; an entry left without any is deleted. */
  ghost function Reference(s: State, id: int, c: Cell, now: int): (t: State)
    requires id in s.info && Consistent(s, LooseOf(s, id), 0)
    requires !s.info[id].fInTried && s.info[id].nRefCount < NEW_BUCKETS_PER_ADDRESS
    requires 0 <= c.bucket < NEW_BUCKET_COUNT && c == s.h.NewCell(ServiceOf(s.info[id]), c.bucket)
    ensures Consistent(t, {}, 0)
    ensures OnlyDemotes(s, t, {})
    ensures id in t.info <==> s.info[id].nRefCount > 0 || Takes(s, id, c, now)
    ensures s.info.Keys - t.info.Keys <= {id} + ClearNewLoses(s, c)
    ensures t.info.Keys <= s.info.Keys && t.triedTable == s.triedTable
  {
    if c in s.newTable && s.newTable[c] == id then
      assert NewEntryOk(s, id, LooseOf(s, id)) && c in Refs(s, id);
      s
    else if Takes(s, id, c, now) then Replace(s, id, c, LooseOf(s, id))
    else if s.info[id].nRefCount == 0 then Drop(s, id)
    else
      assert NewEntryOk(s, id, LooseOf(s, id));
      s
  }

  /** An announced address with the time penalty applied. */
  function Aged(addr: Address, penalty: int): Address {
    addr.(nTime := ToUint32(Max0(addr.nTime - penalty)))
  }

  ghost function CreateNew(s: State, addr: Address, source: nat, penalty: int): (t: State)
    requires Consistent(s, {}, 0) && addr.service.ip !in s.addr
    ensures Consistent(t, {s.nIdCount}, 0)
    ensures t.info.Keys == s.info.Keys + {s.nIdCount} && s.nIdCount !in s.info
    ensures forall x | x in s.info :: t.info[x] == s.info[x]
    ensures t.newTable == s.newTable && t.triedTable == s.triedTable && t.h == s.h
  {
    assert s.nIdCount !in s.info by {
      assert s.nIdCount in s.info ==> EntryIndexed(s, s.nIdCount);
    }
    CreateKeeps(s, Aged(addr, penalty), source);
    Create(s, Aged(addr, penalty), source).(nNew := s.nNew + 1)
  }

  lemma {:induction false} CreateKeeps(s: State, addr: Address, source: nat)
    requires Consistent(s, {}, 0) && addr.service.ip !in s.addr && s.nIdCount !in s.info
    ensures Consistent(Create(s, addr, source).(nNew := s.nNew + 1), {s.nIdCount}, 0)
  {
    var id := s.nIdCount;
    var t := Create(s, addr, source).(nNew := s.nNew + 1);
    forall x | x in t.info ensures EntryIndexed(t, x) {
      assert x != id ==> EntryIndexed(s, x);
    }
    forall ip | ip in t.addr ensures AddrIndexed(t, ip) {
      assert ip != addr.service.ip ==> AddrIndexed(s, ip);
    }
    forall p | 0 <= p < |t.random| ensures SlotIndexed(t, p) {
      assert p < |s.random| ==> SlotIndexed(s, p);
    }
    CreateKeepsTables(s, addr, source);
  }

  lemma {:induction false} CreateKeepsTables(s: State, addr: Address, source: nat)
    requires TriedConsistent(s) && NewConsistent(s, {}) && s.nIdCount !in s.info
    ensures var t, id := Create(s, addr, source).(nNew := s.nNew + 1), s.nIdCount;
            TriedConsistent(t) && NewConsistent(t, {id}) && NewIds(t) == NewIds(s) + {id} && TriedIds(t) == TriedIds(s)
  {
    var t, id := Create(s, addr, source).(nNew := s.nNew + 1), s.nIdCount;
    assert NewIds(t) == NewIds(s) + {id} && TriedIds(t) == TriedIds(s);
    forall c | c in t.triedTable ensures TriedCellOk(t, c) {
      assert TriedCellOk(s, c);
    }
    forall c | c in t.newTable ensures NewCellOk(t, c) && t.newTable[c] != id {
      assert NewCellOk(s, c);
    }
    assert Refs(t, id) == {};
    forall x | x in t.info ensures if t.info[x].fInTried then TriedEntryOk(t, x) else NewEntryOk(t, x, {id}) {
      if x != id {
        assert if s.info[x].fInTried then TriedEntryOk(s, x) else NewEntryOk(s, x, {});
        assert Refs(t, x) == Refs(s, x);
      }
    }
  }

  /** The new cell a source's announcement of `a` asks for. */
  function AskedCell(h: Hasher, a: Service, source: nat): Cell {
    h.NewCell(a, h.GetNewBucket(a, source))
  }

  ghost function Add(s: State, addr: Address, source: nat, penalty: int, now: int, rand: nat): (r: (State, bool))
    requires Consistent(s, {}, 0)
    ensures Consistent(r.0, {}, 0)
  {
    var a := addr.service;
    if !s.h.net.routable(a.ip) then (s, false)
    else if a.ip in s.addr then
      assert AddrIndexed(s, a.ip);
      var id := s.addr[a.ip];
      var i := Refresh(s.info[id], addr, penalty, now);
      assert !i.fInTried ==> NewEntryOk(s, id, {});
      UpdateKeeps(s, id, i, {}, 0);
      var t := Update(s, id, i);
      if Declines(i, addr, rand) then (t, false)
      else (Reference(t, id, AskedCell(s.h, ServiceOf(i), source), now), false)
    else
      var t := CreateNew(s, addr, source, penalty);
      assert NewEntryOk(t, s.nIdCount, {s.nIdCount});
      (Reference(t, s.nIdCount, AskedCell(s.h, a, source), now), true)
  }

  /** What Add_ finds when the address is known: a consistent state with the entry refreshed. */
  lemma {:induction false} KnownRefreshes(s: State, addr: Address, penalty: int, now: int)
    requires Consistent(s, {}, 0) && addr.service.ip in s.addr
    ensures s.addr[addr.service.ip] in s.info
    ensures var id := s.addr[addr.service.ip]; var i := Refresh(s.info[id], addr, penalty, now);
            && Consistent(Update(s, id, i), {}, 0)
            && (!i.fInTried ==> 0 < i.nRefCount <= NEW_BUCKETS_PER_ADDRESS)
  {
    assert AddrIndexed(s, addr.service.ip);
    var id := s.addr[addr.service.ip];
    UpdateKeeps(s, id, Refresh(s.info[id], addr, penalty, now), {}, 0);
    assert s.info[id].fInTried || NewEntryOk(s, id, {});
  }

  /** What Add_ makes when the address is unknown: an entry without a reference. */
  lemma {:induction false} UnknownStartsLoose(s: State, addr: Address, source: nat, penalty: int)
    requires Consistent(s, {}, 0) && addr.service.ip !in s.addr
    ensures var t, id := CreateNew(s, addr, source, penalty), s.nIdCount;
            && t == Create(s, Aged(addr, penalty), source).(nNew := s.nNew + 1)
            && t.info[id].nRefCount == 0 && !t.info[id].fInTried && Consistent(t, {id}, 0)
  {
  }

  //////////////////////////////////////////////////////////////////////////////
  //
  // Attempt_, Connected_ and GetAddr_
  //
  //////////////////////////////////////////////////////////////////////////////

  ghost function Attempt(s: State, a: Service, nTime: int): (t: State)
    requires Consistent(s, {}, 0)
    ensures Consistent(t, {}, 0)
  {
    if !Known(s, a) then s
    else
      var i := s.info[s.addr[a.ip]];
      UpdateKeeps(s, s.addr[a.ip], i.(nLastTry := nTime, nAttempts := i.nAttempts + 1), {}, 0);
      Update(s, s.addr[a.ip], i.(nLastTry := nTime, nAttempts := i.nAttempts + 1))
  }

  ghost function Connected(s: State, a: Service, nTime: int): (t: State)
    requires Consistent(s, {}, 0)
    ensures Consistent(t, {}, 0)
  {
    if !Known(s, a) || nTime - s.info[s.addr[a.ip]].addr.nTime <= 20 * 60 then s
    else
      var i := s.info[s.addr[a.ip]];
      UpdateKeeps(s, s.addr[a.ip], i.(addr := i.addr.(nTime := ToUint32(nTime))), {}, 0);
      Update(s, s.addr[a.ip], i.(addr := i.addr.(nTime := ToUint32(nTime))))
  }

  function GetAddrLimit(size: nat): nat {
    var nNodes := GETADDR_MAX_PCT * size / 100;
    if nNodes > GETADDR_MAX then GETADDR_MAX else nNodes
  }

  /** One round of the shuffle: the state and the list after it. */
  ghost function GetAddrRound(s: State, n: nat, r: nat, picked: seq<Address>, now: int): (q: (State, seq<Address>))
    requires Indexed(s) && n < |s.random|
    ensures Indexed(q.0) && |q.0.random| == |s.random|
  {
    var j := Draw(r, |s.random| - n) + n;
    SwapRandomIndexed(s, n, j);
    var t := SwapRandom(s, n, j);
    assert SlotIndexed(t, n);
    var i := t.info[t.random[n]];
    (t, if IsTerrible(i, now) then picked else picked + [i.addr])
  }

  /** Continue shuffling from position `n`, collecting up to `limit` addresses worth passing on. */
  ghost function GetAddrFrom(s: State, n: nat, limit: nat, rand: nat -> nat, picked: seq<Address>, now: int)
      : (r: (State, seq<Address>))
    requires Indexed(s) && n <= |s.random|
    ensures Indexed(r.0)
    decreases |s.random| - n
  {
    if n == |s.random| || |picked| >= limit then (s, picked)
    else
      var q := GetAddrRound(s, n, rand(n), picked, now);
      GetAddrFrom(q.0, n + 1, limit, rand, q.1, now)
  }

  ghost function GetAddr(s: State, rand: nat -> nat, now: int): (State, seq<Address>)
    requires Indexed(s)
  {
    GetAddrFrom(s, 0, GetAddrLimit(|s.random|), rand, [], now)
  }

  /** `picked` lists, once each, the addresses worth passing on among the first `n` of the random order. */
  ghost predicate Picked(s: State, n: nat, picked: seq<Address>, now: int)
    requires Indexed(s) && n <= |s.random|
  {
    && (forall a {:trigger PickedFrom(s, n, a, now)} | a in picked :: PickedFrom(s, n, a, now))
    && (forall p {:trigger PickedSlot(s, p, picked, now)} | 0 <= p < n :: PickedSlot(s, p, picked, now))
    && (forall k, l | 0 <= k < l < |picked| :: picked[k].service.ip != picked[l].service.ip)
  }

  ghost predicate PickedSlot(s: State, p: nat, picked: seq<Address>, now: int)
    requires p < |s.random|
  {
    s.random[p] in s.info && (!IsTerrible(s.info[s.random[p]], now) ==> s.info[s.random[p]].addr in picked)
  }

  ghost predicate PickedFrom(s: State, n: nat, a: Address, now: int) {
    var ip := a.service.ip;
    ip in s.addr && s.addr[ip] in s.info
    && var i := s.info[s.addr[ip]];
    i.addr == a && i.nRandomPos < n && !IsTerrible(i, now)
  }

  /** `t` is `s` in another random order. */
  ghost predicate Reordered(s: State, t: State) {
    && SameButPositions(s.info, t.info) && t == s.(info := t.info, random := t.random)
    && |t.random| == |s.random|
  }

  lemma {:induction false} ReorderedTrans(s: State, t: State, u: State)
    requires Reordered(s, t) && Reordered(t, u)
    ensures Reordered(s, u)
  {
    assert forall id | id in s.info :: id in t.info && id in u.info;
  }

  lemma {:induction false} GetAddrRoundPicks(s: State, n: nat, r: nat, picked: seq<Address>, now: int)
    requires Indexed(s) && n < |s.random| && Picked(s, n, picked, now)
    ensures var (t, picked') := GetAddrRound(s, n, r, picked, now);
            Reordered(s, t) && Picked(t, n + 1, picked', now) && |picked'| <= |picked| + 1
  {
    var j := Draw(r, |s.random| - n) + n;
    SwapRandomIndexed(s, n, j);
    var (t, picked') := GetAddrRound(s, n, r, picked, now);
    assert SlotIndexed(t, n) && SlotIndexed(s, j);
    PickedStays(s, t, n, picked, now);
    var i := t.info[t.random[n]];
    assert EntryIndexed(t, t.random[n]);
    forall a | a in picked' ensures PickedFrom(t, n + 1, a, now) {
      assert a in picked ==> PickedFrom(t, n, a, now);
    }
    forall p | 0 <= p < n + 1 ensures PickedSlot(t, p, picked', now) {
      assert p < n ==> PickedSlot(t, p, picked, now);
    }
  }

  /** What has been picked is still so when two later positions are swapped, and is not at position `n`. */
  lemma {:induction false} PickedStays(s: State, t: State, n: nat, picked: seq<Address>, now: int)
    requires Indexed(s) && Indexed(t) && n < |s.random| && Picked(s, n, picked, now) && Reordered(s, t)
    requires forall p | 0 <= p < n :: t.random[p] == s.random[p]
    ensures SlotIndexed(t, n)
    ensures forall a | a in picked :: PickedFrom(t, n, a, now) && a.service.ip != IpOf(t.info[t.random[n]])
    ensures forall p {:trigger PickedSlot(t, p, picked, now)} | 0 <= p < n :: PickedSlot(t, p, picked, now)
  {
    assert SlotIndexed(t, n);
    forall p | 0 <= p < n ensures PickedSlot(t, p, picked, now) {
      assert PickedSlot(s, p, picked, now) && SlotIndexed(s, p);
    }
    forall a | a in picked ensures PickedFrom(t, n, a, now) && a.service.ip != IpOf(t.info[t.random[n]]) {
      assert PickedFrom(s, n, a, now);
      var id := s.addr[a.service.ip];
      assert EntryIndexed(s, id) && EntryIndexed(t, id) && EntryIndexed(t, t.random[n]);
      assert t.random[s.info[id].nRandomPos] == id && SlotIndexed(t, s.info[id].nRandomPos);
    }
  }

  lemma {:induction false} GetAddrFromPicks(s: State, n: nat, limit: nat, rand: nat -> nat, picked: seq<Address>, now: int)
      returns (m: nat)
    requires Indexed(s) && n <= |s.random| && |picked| <= limit && Picked(s, n, picked, now)
    ensures var (t, out) := GetAddrFrom(s, n, limit, rand, picked, now);
            && Reordered(s, t) && |out| <= limit
            && m <= |t.random| && Picked(t, m, out, now) && (|out| < limit ==> m == |t.random|)
    decreases |s.random| - n
  {
    if n == |s.random| || |picked| >= limit {
      m := n;
    } else {
      GetAddrRoundPicks(s, n, rand(n), picked, now);
      var q := GetAddrRound(s, n, rand(n), picked, now);
      m := GetAddrFromPicks(q.0, n + 1, limit, rand, q.1, now);
      ReorderedTrans(s, q.0, GetAddrFrom(q.0, n + 1, limit, rand, q.1, now).0);
    }
  }

  /** The addresses of the entries `ids` that are worth passing on. */
  function Usable(s: State, ids: seq<int>, now: int): seq<Address>
    requires forall id | id in ids :: id in s.info
    decreases |ids|
  {
    if ids == [] then []
    else
      var rest := Usable(s, ids[..|ids| - 1], now);
      var id := ids[|ids| - 1];
      assert id in ids;
      if IsTerrible(s.info[id], now) then rest else rest + [s.info[id].addr]
  }

  /** `order` lists every entry of the manager once. */
  ghost predicate Ordering(s: State, order: seq<int>) {
    && |order| == |s.random| && (forall id | id in order :: id in s.info)
    && (forall p, q | 0 <= p < q < |order| :: order[p] != order[q])
  }

  /** One round can move any entry not placed yet to position `n`. */
  lemma {:induction false} RoundPlaces(s: State, n: nat, id: int, picked: seq<Address>, now: int) returns (r: nat)
    requires Indexed(s) && n < |s.random| && id in s.info && forall k | 0 <= k < n :: s.random[k] != id
    ensures var q := GetAddrRound(s, n, r, picked, now);
            && q.0.random[..n + 1] == s.random[..n] + [id] && Reordered(s, q.0)
            && q.1 == if IsTerrible(s.info[id], now) then picked else picked + [s.info[id].addr]
  {
    assert EntryIndexed(s, id);
    var p := s.info[id].nRandomPos;
    r := p - n;
    SwapRandomIndexed(s, n, p);
    var q := GetAddrRound(s, n, r, picked, now);
    assert q.0 == SwapRandom(s, n, p) && q.0.random[n] == id;
  }

  /**
  The draws of GetAddr_ decide the order, and every order can come out: for each there are draws
  that make it list the usable entries in that order, as far as the limit goes.
  */
  lemma {:induction false} AnyOrder(s: State, order: seq<int>, now: int) returns (rand: nat -> nat)
    requires Indexed(s) && Ordering(s, order)
    ensures var (t, out) := GetAddr(s, rand, now);
            |t.random| == |order| && exists m | 0 <= m <= |order| ::
              && t.random[..m] == order[..m] && out == Usable(s, order[..m], now)
              && (m == |order| || |out| == GetAddrLimit(|s.random|))
  {
    var m;
    rand, m := OrderFrom(s, s, 0, GetAddrLimit(|s.random|), order, now, k => 0);
    assert s.random[..0] == order[..0];
  }

  /** The next round places the next entry of the order. */
  lemma {:induction false} OrderStep(s: State, u: State, n: nat, order: seq<int>, now: int) returns (r: nat)
    requires Indexed(s) && Ordering(s, order) && Indexed(u) && Reordered(s, u) && n < |order|
    requires u.random[..n] == order[..n]
    ensures var q := GetAddrRound(u, n, r, Usable(s, order[..n], now), now);
            && Reordered(s, q.0) && q.0.random[..n + 1] == order[..n + 1] && q.1 == Usable(s, order[..n + 1], now)
  {
    assert u.info.Keys == s.info.Keys && order[n] in order;
    forall k | 0 <= k < n ensures u.random[k] != order[n] {
      assert u.random[..n][k] == order[..n][k];
    }
    var picked := Usable(s, order[..n], now);
    assert order[..n + 1][..n] == order[..n];
    r := RoundPlaces(u, n, order[n], picked, now);
    ReorderedTrans(s, u, GetAddrRound(u, n, r, picked, now).0);
    assert order[..n] + [order[n]] == order[..n + 1];
  }

  /** From position `n` on, with the draws before it given by `rand0`. */
  lemma {:induction false} OrderFrom(s: State, u: State, n: nat, limit: nat, order: seq<int>, now: int, rand0: nat -> nat)
      returns (rand: nat -> nat, m: nat)
    requires Indexed(s) && Ordering(s, order) && Indexed(u) && Reordered(s, u) && n <= |order|
    requires u.random[..n] == order[..n] && |Usable(s, order[..n], now)| <= limit
    ensures forall k | 0 <= k < n :: rand(k) == rand0(k)
    ensures var (t, out) := GetAddrFrom(u, n, limit, rand, Usable(s, order[..n], now), now);
            && m <= |order| == |t.random| && t.random[..m] == order[..m] && out == Usable(s, order[..m], now)
            && (m == |order| || |out| == limit)
    decreases |order| - n
  {
    rand, m := rand0, n;
    if n < |order| && |Usable(s, order[..n], now)| < limit {
      var r := OrderStep(s, u, n, order, now);
      var q := GetAddrRound(u, n, r, Usable(s, order[..n], now), now);
      UsableGrows(s, order, n, now);
      rand, m := OrderFrom(s, q.0, n + 1, limit, order, now, k => if k == n then r else rand0(k));
    }
  }

  lemma {:induction false} UsableGrows(s: State, order: seq<int>, n: nat, now: int)
    requires Ordering(s, order) && n < |order|
    ensures |Usable(s, order[..n + 1], now)| <= |Usable(s, order[..n], now)| + 1
  {
    assert order[..n + 1][..n] == order[..n];
  }

  lemma {:induction false} ReorderedConsistent(s: State, t: State)
    requires Consistent(s, {}, 0) && Indexed(t) && Reordered(s, t)
    ensures Consistent(t, {}, 0)
  {
    PositionsAreFree(s, t, {});
  }

  /**
  GetAddr_ reorders vRandom and changes nothing else.  It returns at most the 23% (and 2500) it
  may, each address at most once, all of entries worth passing on, and all of those entries
  unless the limit stops it.
  */
  lemma {:induction false} GetAddrSelects(s: State, rand: nat -> nat, now: int)
    requires Indexed(s)
    ensures var (t, out) := GetAddr(s, rand, now);
            && Indexed(t) && Reordered(s, t)
            && |out| <= 2500 && 100 * |out| <= 23 * |s.random|
            && (forall k, l | 0 <= k < l < |out| :: out[k].service.ip != out[l].service.ip)
            && (forall a | a in out :: exists id | id in s.info :: s.info[id].addr == a && !IsTerrible(s.info[id], now))
            && (|out| < 2500 && 100 * (|out| + 1) <= 23 * |s.random| ==>
                  forall id | id in s.info && !IsTerrible(s.info[id], now) :: s.info[id].addr in out)
  {
    var m := GetAddrFromPicks(s, 0, GetAddrLimit(|s.random|), rand, [], now);
    var (t, out) := GetAddr(s, rand, now);
    forall a | a in out ensures exists id | id in s.info :: s.info[id].addr == a && !IsTerrible(s.info[id], now) {
      assert PickedFrom(t, m, a, now);
      var id := t.addr[a.service.ip];
      assert id in s.info && s.info[id].addr == a;
    }
    if |out| < GetAddrLimit(|s.random|) {
      forall id | id in s.info && !IsTerrible(s.info[id], now) ensures s.info[id].addr in out {
        assert id in t.info && EntryIndexed(t, id) && PickedSlot(t, t.info[id].nRandomPos, out, now);
      }
    }
  }

  //////////////////////////////////////////////////////////////////////////////
  //
  // What Add_ does, and whole runs
  //
  //////////////////////////////////////////////////////////////////////////////

  /** The cell in which Add_ would place a reference. */
  function AddCell(s: State, addr: Address, source: nat): Cell {
    var ip := addr.service.ip;
    AskedCell(s.h, if ip in s.addr && s.addr[ip] in s.info then ServiceOf(s.info[s.addr[ip]]) else addr.service, source)
  }

  /** Entries keep their addresses, so an address stays known as long as its entry is there. */
  lemma {:induction false} AddrFollows(s: State, t: State, ip: nat, id: int)
    requires Indexed(s) && Indexed(t) && OnlyDemotes(s, t, {})
    requires id in s.info && IpOf(s.info[id]) == ip
    ensures ip in t.addr <==> id in t.info
    ensures id in t.info ==> t.addr[ip] == id
  {
    assert EntryIndexed(s, id);
    if id in t.info {
      assert EntryIndexed(t, id) && Demoted(s.info[id], t.info[id]);
    }
    if ip in t.addr {
      assert AddrIndexed(t, ip);
      var x := t.addr[ip];
      assert Demoted(s.info[x], t.info[x]) && EntryIndexed(s, x);
    }
  }

  /** The entry that holds new cell `c`, if any. */
  ghost function Occupant(s: State, c: Cell): set<int> {
    if c in s.newTable then {s.newTable[c]} else {}
  }

  /**
  Entry `id` has taken cell `c` over.  Its former occupant has one reference less, and is deleted
  if that was its last; the other entries stay.
  */
  ghost predicate TookOver(s: State, t: State, id: int, c: Cell) {
    && t.newTable == s.newTable[c := id]
    && t.info.Keys - {id} == s.info.Keys - {id} - (set x | x in Occupant(s, c) && x in s.info && s.info[x].nRefCount == 1)
    && (forall x | x in Occupant(s, c) && x in t.info && x in s.info && x != id ::
          SameEntry(s.info[x].(nRefCount := s.info[x].nRefCount - 1), t.info[x]))
    && SameOutside(s, t, {id} + Occupant(s, c))
  }

  lemma {:induction false} ReplaceEffect(s: State, id: int, c: Cell, loose: set<int>)
    requires Consistent(s, loose, 0) && id in s.info && loose <= {id} && (c in s.newTable ==> s.newTable[c] != id)
    requires !s.info[id].fInTried && s.info[id].nRefCount < NEW_BUCKETS_PER_ADDRESS
    requires 0 <= c.bucket < NEW_BUCKET_COUNT && c == s.h.NewCell(ServiceOf(s.info[id]), c.bucket)
    ensures var t := Replace(s, id, c, loose);
            && SameEntry(s.info[id].(nRefCount := s.info[id].nRefCount + 1), t.info[id])
            && TookOver(s, t, id, c) && t.h == s.h && t.nIdCount == s.nIdCount
  {
    ClearNewKeeps(s, c, loose, 0);
    ClearedDereferences(s, c);
    AttachTakesOver(s, ClearNew(s, c), id, c);
  }

  lemma {:induction false} AttachTakesOver(s: State, u: State, id: int, c: Cell)
    requires Indexed(u) && id in s.info && id in u.info && u.newTable == s.newTable - {c}
    requires u.info.Keys == s.info.Keys - ClearNewLoses(s, c) && (c in s.newTable ==> s.newTable[c] in s.info && s.newTable[c] != id)
    requires forall x | x in u.info && x !in Occupant(s, c) :: SameEntry(s.info[x], u.info[x])
    requires Dereferenced(s, u, c)
    ensures var t := Attach(u, id, c);
            TookOver(s, t, id, c) && SameEntry(s.info[id].(nRefCount := s.info[id].nRefCount + 1), t.info[id])
  {
    assert (s.newTable - {c})[c := id] == s.newTable[c := id];
  }

  /** Does entry `id` get a reference from cell `c` that it did not have? */
  ghost predicate Gains(s: State, id: int, c: Cell, now: int)
    requires id in s.info
  {
    !(c in s.newTable && s.newTable[c] == id) && Takes(s, id, c, now)
  }

  lemma {:induction false} ReferenceEffect(s: State, id: int, c: Cell, now: int)
    requires id in s.info && Consistent(s, LooseOf(s, id), 0)
    requires !s.info[id].fInTried && s.info[id].nRefCount < NEW_BUCKETS_PER_ADDRESS
    requires 0 <= c.bucket < NEW_BUCKET_COUNT && c == s.h.NewCell(ServiceOf(s.info[id]), c.bucket)
    ensures var t := Reference(s, id, c, now);
            t.h == s.h && t.nIdCount == s.nIdCount &&
            if Gains(s, id, c, now) then
              TookOver(s, t, id, c) && SameEntry(s.info[id].(nRefCount := s.info[id].nRefCount + 1), t.info[id])
            else if s.info[id].nRefCount == 0 then
              t.newTable == s.newTable && t.info.Keys == s.info.Keys - {id} && SameOutside(s, t, {})
            else
              t == s
  {
    assert NewEntryOk(s, id, LooseOf(s, id)) && (c in s.newTable && s.newTable[c] == id ==> c in Refs(s, id));
    if Gains(s, id, c, now) {
      ReplaceEffect(s, id, c, LooseOf(s, id));
    } else if s.info[id].nRefCount == 0 {
      DeleteIndexed(s, id);
    }
  }

  /** May the cell be taken by an entry that has other references? */
  ghost predicate TakenFromTerrible(s: State, c: Cell, now: int) {
    c in s.newTable ==> s.newTable[c] in s.info && IsTerrible(s.info[s.newTable[c]], now)
  }

  /**
  What Add_ makes of a known address.  Its services become the union; its time becomes the
  announced one less the penalty, if that is newer by more than an hour (a day, for an address
  not seen within a day).  Announced as seen later than that, a new entry with n < 8 references
  gains one more with one chance in 2^n, if its cell is free or its occupant terrible.
  */
  ghost predicate AddsToKnown(s: State, t: State, addr: Address, source: nat, penalty: int, now: int, rand: nat)
    requires addr.service.ip in s.addr && s.addr[addr.service.ip] in s.info
  {
    var id := s.addr[addr.service.ip];
    var i := s.info[id];
    var a := i.addr.service;
    var c := s.h.NewCell(a, s.h.GetNewBucket(a, source));
    var interval := if now < addr.nTime + 86400 then 3600 else 86400;
    var renewed := addr.nTime > 0 && (i.addr.nTime == 0 || i.addr.nTime + penalty + interval < addr.nTime);
    var nTime := if !renewed then i.addr.nTime else if addr.nTime <= penalty then 0 else (addr.nTime - penalty) % 0x1_0000_0000;
    var gains := && addr.nTime > nTime && !i.fInTried && 0 < i.nRefCount < 8
                 && (rand == 0 || rand >= [1, 2, 4, 8, 16, 32, 64, 128][i.nRefCount])
                 && c !in Refs(s, id) && TakenFromTerrible(s, c, now);
    && id in t.info && t.triedTable == s.triedTable && t.h == s.h && t.nIdCount == s.nIdCount
    && SameEntry(i.(addr := Address(a, i.addr.nServices + addr.nServices, nTime),
                    nRefCount := i.nRefCount + if gains then 1 else 0), t.info[id])
    && if gains then TookOver(s, t, id, c)
       else t.newTable == s.newTable && t.info.Keys == s.info.Keys && SameOutside(s, t, {id})
  }

  /**
  What Add_ makes of an unknown address: an entry that has never been tried, with the announced
  time less the penalty and one reference, if its cell is free, or the occupant is terrible or
  has another reference; else nothing.  The next number is used up in both cases.
  */
  ghost predicate AddsUnknown(s: State, t: State, addr: Address, source: nat, penalty: int, now: int) {
    var a, id := addr.service, s.nIdCount;
    var c := s.h.NewCell(a, s.h.GetNewBucket(a, source));
    var nTime := if addr.nTime <= penalty then 0 else (addr.nTime - penalty) % 0x1_0000_0000;
    && (a.ip in t.addr <==> CanBeHad(s, c, now))
    && t.triedTable == s.triedTable && t.h == s.h && t.nIdCount == s.nIdCount + 1
    && if a.ip in t.addr then
         && t.addr[a.ip] == id && id in t.info && TookOver(s, t, id, c)
         && SameEntry(AddrInfo(Address(a, addr.nServices, nTime), source, 0, 0, 0, 1, false, 0), t.info[id])
       else
         t.newTable == s.newTable && t.info.Keys == s.info.Keys && SameOutside(s, t, {})
  }

  /** Is the cell free, or may an entry without any reference take it over? */
  ghost predicate CanBeHad(s: State, c: Cell, now: int) {
    c in s.newTable ==>
      s.newTable[c] in s.info && (IsTerrible(s.info[s.newTable[c]], now) || s.info[s.newTable[c]].nRefCount > 1)
  }

  /** The chance of a further reference halves with every one there is. */
  lemma {:induction false} Halves(n: int)
    requires 0 <= n < 8
    ensures Pow2(n) == [1, 2, 4, 8, 16, 32, 64, 128][n]
  {
    if n > 0 {
      Halves(n - 1);
    }
  }

  /**
  Which entries are bad enough to be forgotten.  None that was tried within the last minute; else
  one from over ten minutes in the future, unseen for thirty days or never seen at all, that
  failed three times and never succeeded, or that failed ten times since a success over a week ago.
  */
  lemma {:induction false} TerribleExactly(i: AddrInfo, now: int)
    ensures IsTerrible(i, now) <==>
            && (i.nLastTry == 0 || i.nLastTry + 60 < now)
            && (|| i.addr.nTime == 0 || i.addr.nTime > now + 600 || i.addr.nTime + 2592000 < now
                || (i.nLastSuccess == 0 && i.nAttempts >= 3)
                || (i.nLastSuccess + 604800 < now && i.nAttempts >= 10))
  {
  }

  /** The record of a known address after the announcement, and whether a reference may be added. */
  lemma {:induction false} RefreshedRecord(i: AddrInfo, addr: Address, penalty: int, now: int, rand: nat)
    requires i.fInTried || 0 < i.nRefCount <= 8
    ensures var j := Refresh(i, addr, penalty, now);
            && j == i.(addr := Address(i.addr.service, i.addr.nServices + addr.nServices, j.addr.nTime))
            && (!Declines(j, addr, rand) <==>
                  && addr.nTime > j.addr.nTime && !i.fInTried && 0 < i.nRefCount < 8
                  && (rand == 0 || rand >= [1, 2, 4, 8, 16, 32, 64, 128][i.nRefCount]))
  {
    if 0 < i.nRefCount < 8 {
      Halves(i.nRefCount);
    }
  }

  /** Refreshing an entry makes no difference to the entry it displaces. */
  lemma {:induction false} TookOverAlike(s: State, u: State, t: State, id: int, c: Cell)
    requires id in s.info && id in u.info && u == Update(s, id, u.info[id]) && TookOver(u, t, id, c)
    requires c in s.newTable ==> s.newTable[c] != id
    ensures TookOver(s, t, id, c)
  {
    assert u.info.Keys == s.info.Keys && Occupant(u, c) == Occupant(s, c);
  }

  lemma {:induction false} AddKnownEffect(s: State, addr: Address, source: nat, penalty: int, now: int, rand: nat)
    requires Consistent(s, {}, 0) && s.h.net.routable(addr.service.ip) && addr.service.ip in s.addr
    ensures s.addr[addr.service.ip] in s.info
    ensures var t, ip := Add(s, addr, source, penalty, now, rand).0, addr.service.ip;
            && ip in t.addr && t.addr[ip] == s.addr[ip]
            && AddsToKnown(s, t, addr, source, penalty, now, rand)
            && s.info.Keys - t.info.Keys <= ClearNewLoses(s, AddCell(s, addr, source))
  {
    var t, ip := Add(s, addr, source, penalty, now, rand).0, addr.service.ip;
    KnownRefreshes(s, addr, penalty, now);
    var id, c := s.addr[ip], AddCell(s, addr, source);
    assert AddrIndexed(s, ip);
    var i := Refresh(s.info[id], addr, penalty, now);
    var u := Update(s, id, i);
    RefreshedRecord(s.info[id], addr, penalty, now, rand);
    OccupantKnown(s, c);
    if !Declines(i, addr, rand) {
      KnownReferenced(s, u, id, c, now);
      ReferenceEffect(u, id, c, now);
      if Gains(u, id, c, now) {
        TookOverAlike(s, u, t, id, c);
      }
    }
    assert u.info.Keys == s.info.Keys;
    AddrFollows(u, t, ip, id);
  }

  /** When a known entry gains a reference from cell `c`. */
  lemma {:induction false} KnownReferenced(s: State, u: State, id: int, c: Cell, now: int)
    requires Indexed(s) && id in s.info && id in u.info && u == Update(s, id, u.info[id]) && u.info[id].nRefCount > 0
    requires c in s.newTable ==> s.newTable[c] in s.info
    ensures Gains(u, id, c, now) <==> c !in Refs(s, id) && TakenFromTerrible(s, c, now)
  {
  }

  lemma {:induction false} AddUnknownEffect(s: State, addr: Address, source: nat, penalty: int, now: int, rand: nat)
    requires Consistent(s, {}, 0) && s.h.net.routable(addr.service.ip) && addr.service.ip !in s.addr
    ensures var t, c := Add(s, addr, source, penalty, now, rand).0, AddCell(s, addr, source);
            && AddsUnknown(s, t, addr, source, penalty, now)
            && s.info.Keys - t.info.Keys <= ClearNewLoses(s, c)
  {
    var u := CreateNew(s, addr, source, penalty);
    UnknownStartsLoose(s, addr, source, penalty);
    OccupantKnown(s, AddCell(s, addr, source));
    UnknownReferenced(s, u, addr, source, penalty, now);
    var t := Reference(u, s.nIdCount, AddCell(s, addr, source), now);
    UnknownGains(s, u, t, addr, source, penalty, now);
  }

  lemma {:induction false} UnknownReferenced(s: State, u: State, addr: Address, source: nat, penalty: int, now: int)
    requires addr.service.ip !in s.addr && u == Create(s, Aged(addr, penalty), source).(nNew := s.nNew + 1)
    requires Consistent(u, {s.nIdCount}, 0)
    ensures var t, id, c := Reference(u, s.nIdCount, AddCell(s, addr, source), now), s.nIdCount, AddCell(s, addr, source);
            && (addr.service.ip in t.addr <==> id in t.info) && (id in t.info ==> t.addr[addr.service.ip] == id)
            && t.h == s.h && t.nIdCount == s.nIdCount + 1
            && if Gains(u, id, c, now) then
                 id in t.info && TookOver(u, t, id, c) && SameEntry(u.info[id].(nRefCount := 1), t.info[id])
               else
                 t.newTable == s.newTable && t.info.Keys == u.info.Keys - {id} && SameOutside(u, t, {})
  {
    var id, c := s.nIdCount, AddCell(s, addr, source);
    ReferenceEffect(u, id, c, now);
    AddrFollows(u, Reference(u, id, c, now), addr.service.ip, id);
  }

  lemma {:induction false} OccupantKnown(s: State, c: Cell)
    requires Consistent(s, {}, 0)
    ensures c in s.newTable ==> s.newTable[c] in s.info
  {
    assert c in s.newTable ==> NewCellOk(s, c);
  }

  /** From the entry just created to whether it is kept. */
  lemma {:induction false} UnknownGains(s: State, u: State, t: State, addr: Address, source: nat, penalty: int, now: int)
    requires addr.service.ip !in s.addr && s.nIdCount !in s.info
    requires u == Create(s, Aged(addr, penalty), source).(nNew := s.nNew + 1)
    requires AddCell(s, addr, source) in s.newTable ==> s.newTable[AddCell(s, addr, source)] in s.info
    requires addr.service.ip in t.addr <==> s.nIdCount in t.info
    requires s.nIdCount in t.info ==> t.addr[addr.service.ip] == s.nIdCount
    requires t.triedTable == s.triedTable && t.h == s.h && t.nIdCount == s.nIdCount + 1
    requires var id, c := s.nIdCount, AddCell(s, addr, source);
             if Gains(u, id, c, now) then
               id in t.info && TookOver(u, t, id, c) && SameEntry(u.info[id].(nRefCount := 1), t.info[id])
             else
               t.newTable == s.newTable && t.info.Keys == u.info.Keys - {id} && SameOutside(u, t, {})
    ensures AddsUnknown(s, t, addr, source, penalty, now)
  {
    var id, c := s.nIdCount, AddCell(s, addr, source);
    assert Gains(u, id, c, now) <==> CanBeHad(s, c, now);
    assert u.info.Keys == s.info.Keys + {id} && Occupant(u, c) == Occupant(s, c);
    if !Gains(u, id, c, now) {
      assert t.info.Keys == s.info.Keys;
    }
  }

  /**
  Add_ returns true exactly for an unknown routable address.  That does not mean it is kept: it
  is kept exactly when its cell is free or may be taken over.  No other entry is removed but
  the occupant of that cell holding its last reference, and tried entries are not touched.
  */
  lemma {:induction false} AddEffect(s: State, addr: Address, source: nat, penalty: int, now: int, rand: nat)
    requires Consistent(s, {}, 0)
    ensures var (t, fNew) := Add(s, addr, source, penalty, now, rand); var ip := addr.service.ip;
            && (fNew <==> s.h.net.routable(ip) && ip !in s.addr)
            && (!s.h.net.routable(ip) ==> t == s)
            && (ip in s.addr ==> ip in t.addr && t.addr[ip] == s.addr[ip] && s.addr[ip] in s.info)
            && (ip in s.addr && s.h.net.routable(ip) ==> AddsToKnown(s, t, addr, source, penalty, now, rand))
            && (fNew ==> AddsUnknown(s, t, addr, source, penalty, now))
            && s.info.Keys - t.info.Keys <= ClearNewLoses(s, AddCell(s, addr, source))
  {
    if addr.service.ip in s.addr {
      assert AddrIndexed(s, addr.service.ip);
    }
    if s.h.net.routable(addr.service.ip) {
      if addr.service.ip in s.addr {
        AddKnownEffect(s, addr, source, penalty, now, rand);
      } else {
        AddUnknownEffect(s, addr, source, penalty, now, rand);
      }
    }
  }

  datatype Op =
    | AddOp(addr: Address, source: nat, penalty: int, now: int, rand: nat)
    | GoodOp(service: Service, nTime: int)
    | AttemptOp(service: Service, nTime: int)
    | ConnectedOp(service: Service, nTime: int)
    | GetAddrOp(rands: nat -> nat, now: int)

  ghost function Apply(s: State, op: Op): (t: State)
    requires Consistent(s, {}, 0)
    ensures Consistent(t, {}, 0)
  {
    match op
    case AddOp(addr, source, penalty, now, rand) => Add(s, addr, source, penalty, now, rand).0
    case GoodOp(a, nTime) => Good(s, a, nTime)
    case AttemptOp(a, nTime) => Attempt(s, a, nTime)
    case ConnectedOp(a, nTime) => Connected(s, a, nTime)
    case GetAddrOp(rand, now) =>
      GetAddrSelects(s, rand, now);
      ReorderedConsistent(s, GetAddr(s, rand, now).0);
      GetAddr(s, rand, now).0
  }

  ghost function Run(s: State, ops: seq<Op>): (t: State)
    requires Consistent(s, {}, 0)
    ensures Consistent(t, {}, 0)
    decreases |ops|
  {
    if ops == [] then s else Run(Apply(s, ops[0]), ops[1..])
  }

  /** The times an operation records are usable: positive for Good_, not negative for Attempt_. */
  predicate TimeOk(op: Op) {
    (op.GoodOp? ==> op.nTime > 0) && (op.AttemptOp? ==> op.nTime >= 0)
  }

  /** Every run keeps the indexes, tables and counters consistent, whatever times it is given. */
  lemma {:induction false} RunConsistent(h: Hasher, ops: seq<Op>)
    ensures Consistent(Empty(h), {}, 0)
    ensures var t := Run(Empty(h), ops);
            && Consistent(t, {}, 0)
            && t.nNew + t.nTried == |t.random| == |t.info|
  {
    var e := Empty(h);
    assert TriedIds(e) == {} && NewIds(e) == {};
    SizesAgree(Run(e, ops));
  }

  /** The two counters together count the entries, and vRandom lists each of them once. */
  lemma {:induction false} SizesAgree(s: State)
    requires Consistent(s, {}, 0)
    ensures s.nNew + s.nTried == |s.random| == |s.info|
  {
    assert TriedIds(s) + NewIds(s) == s.info.Keys && TriedIds(s) !! NewIds(s);
    forall id | id in s.info ensures InSlot(s, id) {
      assert EntryIndexed(s, id);
    }
    SlotsCount(s);
  }

  lemma {:induction false} SlotsCount(s: State)
    requires forall id {:trigger InSlot(s, id)} | id in s.info :: InSlot(s, id)
    requires forall p {:trigger SlotIndexed(s, p)} | 0 <= p < |s.random| :: SlotIndexed(s, p)
    ensures |s.random| == |s.info|
  {
    forall p, q | 0 <= p < q < |s.random| ensures s.random[p] != s.random[q] {
      assert SlotIndexed(s, p) && SlotIndexed(s, q);
    }
    forall x | x in s.info ensures x in s.random {
      assert InSlot(s, x);
    }
    forall p | 0 <= p < |s.random| ensures s.random[p] in s.info {
      assert SlotIndexed(s, p);
    }
    DistinctSize(s.random, s.info.Keys);
  }

  /** Every run from an empty manager with usable times passes the manager's own consistency check. */
  lemma {:induction false} RunInv(h: Hasher, ops: seq<Op>)
    requires forall op | op in ops :: TimeOk(op)
    ensures Consistent(Empty(h), {}, 0) && Inv(Run(Empty(h), ops))
  {
    RunConsistent(h, []);
    RunKeepsInv(Empty(h), ops);
  }

  lemma {:induction false} RunKeepsInv(s: State, ops: seq<Op>)
    requires Inv(s) && forall op | op in ops :: TimeOk(op)
    ensures Inv(Run(s, ops))
    decreases |ops|
  {
    if ops != [] {
      assert TimeOk(ops[0]);
      ApplyKeepsInv(s, ops[0]);
      RunKeepsInv(Apply(s, ops[0]), ops[1..]);
    }
  }

  lemma {:induction false} AddKeepsInv(s: State, addr: Address, source: nat, penalty: int, now: int, rand: nat)
    requires Inv(s)
    ensures Inv(Add(s, addr, source, penalty, now, rand).0)
  {
    AddDemotes(s, addr, source, penalty, now, rand);
    var t := Add(s, addr, source, penalty, now, rand).0;
    forall x | x in t.info ensures TimesFine(t.info[x]) {
      assert x in s.info ==> TimesFine(s.info[x]);
    }
  }

  lemma {:induction false} GetAddrKeepsInv(s: State, rand: nat -> nat, now: int)
    requires Inv(s)
    ensures Inv(GetAddr(s, rand, now).0)
  {
    GetAddrSelects(s, rand, now);
    var t := GetAddr(s, rand, now).0;
    ReorderedConsistent(s, t);
    forall x | x in t.info ensures TimesFine(t.info[x]) {
      assert x in s.info && TimesFine(s.info[x]);
    }
  }

  /** One operation keeps the invariant exactly when the time it records, if it records one, is usable. */
  lemma {:induction false} ApplyKeepsInv(s: State, op: Op)
    requires Inv(s)
    ensures Inv(Apply(s, op)) <==> TimeOk(op) || !Known(s, op.service)
  {
    match op
    case AddOp(addr, source, penalty, now, rand) => AddKeepsInv(s, addr, source, penalty, now, rand);
    case GoodOp(a, nTime) => GoodTimes(s, a, nTime);
    case AttemptOp(a, nTime) => AttemptTimes(s, a, nTime);
    case ConnectedOp(a, nTime) => ConnectedKeepsInv(s, a, nTime);
    case GetAddrOp(rand, now) => GetAddrKeepsInv(s, rand, now);
  }

  /** The entry of a known address after an operation that changes nothing else. */
  ghost predicate ChangesOnly(s: State, t: State, id: int, i: AddrInfo) {
    id in t.info && t.info[id] == i && t == s.(info := t.info)
    && t.info.Keys == s.info.Keys && forall x | x in s.info && x != id :: t.info[x] == s.info[x]
  }

  /**
  Attempt_ sets the time of the last attempt and counts it, and does so for nobody else.  It keeps
  the invariant exactly for an unknown address or a time that is not negative.
  */
  lemma {:induction false} AttemptTimes(s: State, a: Service, nTime: int)
    requires Inv(s)
    ensures if a.ip in s.addr && s.addr[a.ip] in s.info && s.info[s.addr[a.ip]].addr.service == a then
              var i := s.info[s.addr[a.ip]];
              ChangesOnly(s, Attempt(s, a, nTime), s.addr[a.ip], i.(nLastTry := nTime, nAttempts := i.nAttempts + 1))
            else
              Attempt(s, a, nTime) == s
    ensures Inv(Attempt(s, a, nTime)) <==> Known(s, a) ==> nTime >= 0
  {
    var t := Attempt(s, a, nTime);
    if Known(s, a) {
      assert TimesFine(t.info[s.addr[a.ip]]) <==> nTime >= 0 by {
        assert TimesFine(s.info[s.addr[a.ip]]);
      }
      forall x | x in t.info && x != s.addr[a.ip] ensures TimesFine(t.info[x]) {
        assert TimesFine(s.info[x]);
      }
    }
  }

  /**
  Connected_ changes at most the recorded time of a known address, which afterwards is less than
  twenty minutes behind or just that time; for it to change it must have been further behind.
  */
  lemma {:induction false} ConnectedKeepsInv(s: State, a: Service, nTime: int)
    requires Inv(s)
    ensures Inv(Connected(s, a, nTime))
    ensures var t := Connected(s, a, nTime);
            if a.ip in s.addr && s.addr[a.ip] in s.info && s.info[s.addr[a.ip]].addr.service == a then
              var id := s.addr[a.ip]; var i := s.info[id];
              && (i.addr.nTime + 1200 < nTime ==> ChangesOnly(s, t, id, i.(addr := Address(a, i.addr.nServices, nTime % 0x1_0000_0000))))
              && (t == s <==> i.addr.nTime + 1200 >= nTime || i.addr.nTime == nTime % 0x1_0000_0000)
              && (nTime < 0x1_0000_0000 ==> t.info[id].addr.nTime + 1200 >= nTime)
            else
              t == s
  {
    var t := Connected(s, a, nTime);
    forall x | x in t.info ensures TimesFine(t.info[x]) {
      assert TimesFine(s.info[x]);
    }
  }

  /** Add_ puts a known address's statistics and a new entry with none into the manager, and demotes nothing. */
  lemma {:induction false} AddDemotes(s: State, addr: Address, source: nat, penalty: int, now: int, rand: nat)
    requires Consistent(s, {}, 0)
    ensures var t := Add(s, addr, source, penalty, now, rand).0;
            forall x | x in t.info ::
              if x in s.info then SameTimes(s.info[x], t.info[x])
              else t.info[x].nLastTry == t.info[x].nLastSuccess == 0 && !t.info[x].fInTried
  {
    var t, ip := Add(s, addr, source, penalty, now, rand).0, addr.service.ip;
    if s.h.net.routable(ip) {
      var u := if ip in s.addr then
                 (assert AddrIndexed(s, ip); Update(s, s.addr[ip], Refresh(s.info[s.addr[ip]], addr, penalty, now)))
               else CreateNew(s, addr, source, penalty);
      assert OnlyDemotes(u, t, {});
      forall x | x in t.info
        ensures if x in s.info then SameTimes(s.info[x], t.info[x])
                else t.info[x].nLastTry == t.info[x].nLastSuccess == 0 && !t.info[x].fInTried
      {
        assert Demoted(u.info[x], t.info[x]);
      }
    }
  }

  /** An address that was never reached is forgotten after three attempts, a minute after the last. */
  lemma {:induction false} ThreeAttempts(s: State, a: Service, t1: int, t2: int, t3: int, now: int)
    requires Consistent(s, {}, 0) && Known(s, a)
    requires s.info[s.addr[a.ip]].nLastSuccess == 0 && s.info[s.addr[a.ip]].nAttempts >= 0 && t3 + 60 < now
    ensures var t := Attempt(Attempt(Attempt(s, a, t1), a, t2), a, t3);
            t.info.Keys == s.info.Keys && IsTerrible(t.info[s.addr[a.ip]], now)
  {
  }

  /** A success clears whatever attempts there were: only the recorded time can still be held against the entry. */
  lemma {:induction false} GoodRedeems(s: State, a: Service, nTime: int, now: int)
    requires Consistent(s, {}, 0) && Known(s, a)
    ensures var t, id := Good(s, a, nTime), s.addr[a.ip]; var seen := s.info[id].addr.nTime;
            && id in t.info
            && (IsTerrible(t.info[id], now) <==>
                  (nTime == 0 || nTime + 60 < now) && (seen == 0 || seen > now + 600 || seen + 2592000 < now))
  {
    GoodMovesToTried(s, a, nTime);
    var t, id := Good(s, a, nTime), s.addr[a.ip];
    assert t.info[id].addr == s.info[id].addr by {
      if !s.info[id].fInTried {
        GoodPromotes(s, a, nTime);
      }
    }
  }

  predicate SameTimes(i: AddrInfo, j: AddrInfo) {
    j.nLastTry == i.nLastTry && j.nLastSuccess == i.nLastSuccess && (j.fInTried ==> i.fInTried)
  }

  //////////////////////////////////////////////////////////////////////////////
  //
  // Inputs on which operations fall short
  //
  //////////////////////////////////////////////////////////////////////////////

  /** A manager whose hashes send every address to the same cells, and which finds every address routable. */
  function Crowded(): Hasher {
    Hasher(Net((k, a) => 0, (k, a, source) => 0, (k, a, fNew, b) => 0, ip => true), 1)
  }

  /** The address with number `n`, last seen at time 100. */
  function Sample(n: nat): Address {
    Address(Service(n, 8333), {}, 100)
  }

  /** A crowded manager that knows one address. */
  ghost predicate KnowsOne(s: State) {
    && Inv(s) && s.h == Crowded() && s.addr == map[1 := 0] && s.newTable == map[Cell(0, 0) := 0] && 0 in s.info
    && s.info[0].addr == Sample(1) && s.info[0].nRefCount == 1 && s.info[0].nLastSuccess == s.info[0].nAttempts == 0
  }

  /** It is what one Add_ makes of an empty manager. */
  lemma {:induction false} FirstAdded() returns (s: State)
    ensures Consistent(Empty(Crowded()), {}, 0) && s == Add(Empty(Crowded()), Sample(1), 0, 0, 100, 0).0
    ensures KnowsOne(s)
  {
    RunConsistent(Crowded(), []);
    var e := Empty(Crowded());
    AddEffect(e, Sample(1), 0, 0, 100, 0);
    AddKeepsInv(e, Sample(1), 0, 0, 100, 0);
    s := Add(e, Sample(1), 0, 0, 100, 0).0;
    OnlyOne(e, s);
  }

  lemma {:induction false} OnlyOne(e: State, s: State)
    requires e == Empty(Crowded()) && Inv(s) && s.h == e.h && AddsUnknown(e, s, Sample(1), 0, 0, 100)
    ensures KnowsOne(s)
  {
    assert AddCell(e, Sample(1), 0) == Cell(0, 0) && CanBeHad(e, Cell(0, 0), 100);
    assert Aged(Sample(1), 0) == Sample(1);
    forall x | x in s.info ensures x == 0 {
      assert x !in {0} + Occupant(e, Cell(0, 0)) ==> x in e.info;
    }
    forall ip | ip in s.addr ensures ip == 1 {
      assert AddrIndexed(s, ip);
    }
    assert s.addr.Keys == {1};
  }

  /** Add_ returns true for a second address and does not keep it: its cell is taken by the first. */
  lemma {:induction false} AddNotKept(s: State)
    requires KnowsOne(s)
    ensures var (t, fNew) := Add(s, Sample(2), 0, 0, 100, 0); fNew && 2 !in t.addr
  {
    AddEffect(s, Sample(2), 0, 0, 100, 0);
    CellTaken(s);
  }

  lemma {:induction false} CellTaken(s: State)
    requires KnowsOne(s)
    ensures !CanBeHad(s, AddCell(s, Sample(2), 0), 100)
  {
    assert AddCell(s, Sample(2), 0) == Cell(0, 0);
    assert !IsTerrible(s.info[0], 100);
  }

  /** A success recorded with time 0 leaves an entry that the manager's own check rejects. */
  lemma {:induction false} GoodAtZero(s: State)
    requires KnowsOne(s)
    ensures !Inv(Good(s, Sample(1).service, 0))
  {
    GoodTimes(s, Sample(1).service, 0);
  }

  /** So does an attempt recorded with a negative time. */
  lemma {:induction false} AttemptBeforeZero(s: State)
    requires KnowsOne(s)
    ensures !Inv(Attempt(s, Sample(1).service, -1))
  {
    AttemptTimes(s, Sample(1).service, -1);
  }
}
