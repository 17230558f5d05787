/**
Good_ and MakeTried on the manager's state: an address that proved good moves to the tried
table, at the cost of at most one other address.
*/
module AddrManGood {
  import opened AddrManState
  import opened AddrManTables

  /** The new cell an entry goes to when it is evicted from the tried table. */
  function HomeCell(s: State, id: int): Cell
    requires id in s.info
  {
    var a := ServiceOf(s.info[id]);
    s.h.NewCell(a, s.h.GetNewBucket(a, s.info[id].source))
  }

  /** Take the occupant of tried cell `c` out of it and clear its home cell in the new table. */
  ghost function Displace(s: State, c: Cell, loose: set<int>, missing: int): (t: State)
    requires Consistent(s, loose, missing) && c in s.triedTable
    ensures s.triedTable[c] in s.info && s.triedTable[c] !in loose
    ensures Consistent(t, loose + {s.triedTable[c]}, missing + 1)
    ensures t.triedTable == s.triedTable - {c} && t.h == s.h
    ensures t.newTable == s.newTable - {HomeCell(s, s.triedTable[c])}
    ensures forall x | x in loose + {s.triedTable[c]} :: x in s.info && x in t.info && ServiceOf(t.info[x]) == ServiceOf(s.info[x])
    ensures OnlyDemotes(s, t, {})
  {
    UnseatKeeps(s, c, loose, missing);
    var t := Unseat(s, c);
    var u := HomeCell(t, s.triedTable[c]);
    ClearNewKeeps(t, u, loose + {s.triedTable[c]}, missing + 1);
    ClearNew(t, u)
  }

  lemma {:induction false} DisplacedIsLoose(s: State, c: Cell, loose: set<int>, missing: int)
    requires Consistent(s, loose, missing) && c in s.triedTable
    ensures var t, e := Displace(s, c, loose, missing), s.triedTable[c];
            e in t.info && !t.info[e].fInTried && t.info[e].nRefCount == 0
  {
    var t, e := Displace(s, c, loose, missing), s.triedTable[c];
    assert e in NewIds(t) && NewEntryOk(t, e, loose + {e});
  }

  /** Give the unreferenced, uncounted entry `e` one reference, in new cell `u`, and count it. */
  ghost function EnterAgain(v: State, e: int, u: Cell, loose: set<int>, missing: int): (t: State)
    requires Consistent(v, loose + {e}, missing + 1) && e !in loose
    requires e in v.info && !v.info[e].fInTried && v.info[e].nRefCount == 0 && u !in v.newTable
    requires 0 <= u.bucket < NEW_BUCKET_COUNT && u == v.h.NewCell(ServiceOf(v.info[e]), u.bucket)
    ensures Consistent(t, loose, missing)
    ensures t.triedTable == v.triedTable && t.h == v.h
    ensures t.info == v.info[e := v.info[e].(nRefCount := 1)]
  {
    AttachKeeps(v, e, u, loose + {e}, missing + 1);
    assert loose + {e} - {e} == loose;
    var w := Attach(v, e, u);
    CountersFrame(w, w.(nNew := w.nNew + 1), loose, missing + 1);
    w.(nNew := w.nNew + 1)
  }

  /** Move the occupant of tried cell `c` back to the new table. */
  ghost function Evict(s: State, c: Cell, loose: set<int>, missing: int): (t: State)
    requires Consistent(s, loose, missing) && c in s.triedTable
    ensures Consistent(t, loose, missing)
    ensures t.triedTable == s.triedTable - {c} && t.h == s.h
    ensures forall x | x in loose :: x in s.info && x in t.info && ServiceOf(t.info[x]) == ServiceOf(s.info[x])
    ensures OnlyDemotes(s, t, {})
  {
    var v := Displace(s, c, loose, missing);
    var e := s.triedTable[c];
    DisplacedIsLoose(s, c, loose, missing);
    EnterAgain(v, e, HomeCell(s, e), loose, missing)
  }

  lemma {:induction false} CountersFrame(s: State, t: State, loose: set<int>, missing: int)
    requires Consistent(s, loose, missing) && t == s.(nNew := t.nNew)
    ensures Consistent(t, loose, missing + s.nNew - t.nNew)
  {
    IndexedFrame(s, t);
    TablesFrame(s, t, Cell(-1, 0));
    assert NewIds(t) == NewIds(s) && TriedIds(t) == TriedIds(s);
    forall d | d in t.newTable ensures NewCellOk(t, d) {
      assert NewCellOk(s, d);
    }
    forall x | x in t.info && !t.info[x].fInTried ensures NewEntryOk(t, x, loose) {
      assert NewEntryOk(s, x, loose);
      assert Refs(t, x) == Refs(s, x);
    }
  }

  ghost function MakeTried(s: State, id: int): (t: State)
    requires Consistent(s, {}, 0) && id in s.info && !s.info[id].fInTried
    ensures Consistent(t, {}, 0)
    ensures OnlyDemotes(s, t, {id})
  {
    StripKeeps(s, id);
    var t := Strip(s, id);
    var c := t.h.TriedCell(ServiceOf(t.info[id]));
    assert id in t.info;
    var u := if c in t.triedTable then Evict(t, c, {id}, 1) else t;
    assert id in u.info && ServiceOf(u.info[id]) == ServiceOf(t.info[id]);
    SeatKeeps(u, id);
    Seat(u, id)
  }

  /** Does the manager know exactly this service (address and port)? */
  ghost predicate Known(s: State, a: Service) {
    a.ip in s.addr && s.addr[a.ip] in s.info && ServiceOf(s.info[s.addr[a.ip]]) == a
  }

  /** Two entries that differ at most in their position in the random order. */
  predicate SameEntry(i: AddrInfo, j: AddrInfo) {
    j == i.(nRandomPos := j.nRandomPos)
  }

  ghost function Marked(s: State, id: int, nTime: int): State
    requires id in s.info
  {
    Update(s, id, s.info[id].(nLastSuccess := nTime, nLastTry := nTime, nAttempts := 0))
  }

  ghost function Good(s: State, a: Service, nTime: int): (t: State)
    requires Consistent(s, {}, 0)
    ensures Consistent(t, {}, 0)
    ensures OnlyDemotes(s, t, if Known(s, a) then {s.addr[a.ip]} else {})
  {
    if !Known(s, a) then s
    else
      var id := s.addr[a.ip];
      UpdateKeeps(s, id, Marked(s, id, nTime).info[id], {}, 0);
      var t := Marked(s, id, nTime);
      if t.info[id].fInTried then t else MakeTried(t, id)
  }

  /** Changing the statistics of an entry disturbs nothing. */
  lemma {:induction false} UpdateKeeps(s: State, id: int, i: AddrInfo, loose: set<int>, missing: int)
    requires Consistent(s, loose, missing) && id in s.info
    requires ServiceOf(i) == ServiceOf(s.info[id]) && i.nRandomPos == s.info[id].nRandomPos
    requires i.fInTried == s.info[id].fInTried && i.nRefCount == s.info[id].nRefCount
    ensures Consistent(Update(s, id, i), loose, missing)
  {
    var t := Update(s, id, i);
    UpdateIndexed(s, id, i);
    TablesFrame(s, t, Cell(-1, 0));
    assert NewIds(t) == NewIds(s) && TriedIds(t) == TriedIds(s);
    forall d | d in t.newTable ensures NewCellOk(t, d) {
      assert NewCellOk(s, d);
    }
    forall x | x in t.info && !t.info[x].fInTried ensures NewEntryOk(t, x, loose) {
      assert NewEntryOk(s, x, loose);
      assert Refs(t, x) == Refs(s, x);
    }
  }

  /** The entry deleted when the occupant of tried cell `c` is evicted. */
  ghost function EvictLoses(s: State, c: Cell): set<int> {
    if c in s.triedTable && s.triedTable[c] in s.info then ClearNewLoses(s, HomeCell(s, s.triedTable[c])) else {}
  }

  /** The entries whose record changes when the occupant of tried cell `c` is evicted. */
  ghost function EvictTouches(s: State, c: Cell): set<int> {
    if c in s.triedTable && s.triedTable[c] in s.info then
      var u := HomeCell(s, s.triedTable[c]);
      {s.triedTable[c]} + (if u in s.newTable then {s.newTable[u]} else {})
    else
      {}
  }

  /** Entries outside `except` are as before, if still there. */
  ghost predicate SameOutside(s: State, t: State, except: set<int>) {
    forall x | x in t.info && x !in except :: x in s.info && SameEntry(s.info[x], t.info[x])
  }

  /** The evicted entry is a new entry again, with the one reference in its home cell. */
  ghost predicate Evicted(s: State, t: State, c: Cell)
    requires c in s.triedTable && s.triedTable[c] in s.info
  {
    var e := s.triedTable[c];
    && t.info.Keys == s.info.Keys - EvictLoses(s, c)
    && t.newTable == s.newTable[HomeCell(s, e) := e]
    && e in t.info && SameEntry(s.info[e].(fInTried := false, nRefCount := 1), t.info[e])
    && Dereferenced(s, t, HomeCell(s, e))
    && SameOutside(s, t, EvictTouches(s, c))
  }

  /** The occupant of new cell `u`, if it is still there, has one reference less. */
  ghost predicate Dereferenced(s: State, t: State, u: Cell) {
    u in s.newTable && s.newTable[u] in s.info && s.newTable[u] in t.info ==>
      var x := s.newTable[u];
      SameEntry(s.info[x].(nRefCount := s.info[x].nRefCount - 1), t.info[x])
  }

  lemma {:induction false} ClearedDereferences(s: State, u: Cell)
    requires Indexed(s) && (u in s.newTable ==> s.newTable[u] in s.info)
    ensures Dereferenced(s, ClearNew(s, u), u)
  {
    if u in s.newTable && s.newTable[u] in ClearNew(s, u).info {
      ClearNewCounts(s, u);
    }
  }

  lemma {:induction false} DisplaceEffect(s: State, c: Cell, loose: set<int>, missing: int)
    requires Consistent(s, loose, missing) && c in s.triedTable
    ensures var t, e := Displace(s, c, loose, missing), s.triedTable[c];
            && t.info.Keys == s.info.Keys - EvictLoses(s, c)
            && e in t.info && SameEntry(s.info[e].(fInTried := false, nRefCount := 0), t.info[e])
            && Dereferenced(s, t, HomeCell(s, e))
            && SameOutside(s, t, EvictTouches(s, c))
    ensures EvictTouches(s, c) !! loose
  {
    UnseatKeeps(s, c, loose, missing);
    var e := s.triedTable[c];
    var t := Unseat(s, c);
    var u := HomeCell(t, e);
    assert u == HomeCell(s, e);
    ClearNewKeeps(t, u, loose + {e}, missing + 1);
    ClearedDereferences(t, u);
    assert TriedEntryOk(s, e);
    assert u in s.newTable ==> NewCellOk(s, u);
  }

  lemma {:induction false} EvictEffect(s: State, c: Cell, loose: set<int>, missing: int)
    requires Consistent(s, loose, missing) && c in s.triedTable
    ensures s.triedTable[c] in s.info && s.info[s.triedTable[c]].fInTried
    ensures Evicted(s, Evict(s, c, loose, missing), c)
    ensures EvictTouches(s, c) !! loose
  {
    assert TriedCellOk(s, c);
    DisplaceEffect(s, c, loose, missing);
    EvictFromDisplaced(s, Displace(s, c, loose, missing), Evict(s, c, loose, missing), c);
  }

  lemma {:induction false} EvictFromDisplaced(s: State, v: State, t: State, c: Cell)
    requires c in s.triedTable && s.triedTable[c] in s.info
    requires var e := s.triedTable[c];
             && v.info.Keys == s.info.Keys - EvictLoses(s, c)
             && e in v.info && SameEntry(s.info[e].(fInTried := false, nRefCount := 0), v.info[e])
             && Dereferenced(s, v, HomeCell(s, e)) && (HomeCell(s, e) in s.newTable ==> s.newTable[HomeCell(s, e)] != e)
             && SameOutside(s, v, EvictTouches(s, c))
             && v.newTable == s.newTable - {HomeCell(s, e)}
             && t.info == v.info[e := v.info[e].(nRefCount := v.info[e].nRefCount + 1)]
             && t.newTable == v.newTable[HomeCell(s, e) := e]
    ensures Evicted(s, t, c)
  {
    var e, u := s.triedTable[c], HomeCell(s, s.triedTable[c]);
    assert (s.newTable - {u})[u := e] == s.newTable[u := e];
  }

  /** The entry deleted when new entry `id` moves to the tried table. */
  ghost function MakeTriedLoses(s: State, id: int): set<int>
    requires id in s.info
  {
    EvictLoses(s, s.h.TriedCell(ServiceOf(s.info[id]))) - {id}
  }

  lemma {:induction false} StripKeepsEviction(s: State, id: int, c: Cell)
    requires Indexed(s) && id in s.info && !s.info[id].fInTried
    requires c in s.triedTable && s.triedTable[c] in s.info && s.triedTable[c] != id
    ensures EvictLoses(Strip(s, id), c) == EvictLoses(s, c) - {id}
    ensures EvictTouches(Strip(s, id), c) + {id} == EvictTouches(s, c) + {id}
    ensures HomeCell(Strip(s, id), s.triedTable[c]) == HomeCell(s, s.triedTable[c])
  {
    var u, r := HomeCell(s, s.triedTable[c]), Strip(s, id);
    assert HomeCell(r, r.triedTable[c]) == u;
    if u in s.newTable && s.newTable[u] != id {
      assert u in r.newTable && r.newTable[u] == s.newTable[u];
    } else {
      assert u !in r.newTable;
      assert EvictLoses(r, c) == {};
    }
  }

  /**
  What moving new entry `id` to the tried table does: it leaves every new cell, and the occupant
  `e` of its tried cell, if any, goes to the new cell of the bucket for the source it was learned
  from.  The entry there has one reference less, and is deleted if that was its last; nothing else
  is touched.
  */
  ghost predicate Promotes(s: State, t: State, id: int)
    requires id in s.info
  {
    var c := s.h.TriedCell(ServiceOf(s.info[id]));
    && id in t.info && t.triedTable == s.triedTable[c := id] && t.h == s.h
    && if c !in s.triedTable then
         t.newTable == s.newTable - Refs(s, id) && t.info.Keys == s.info.Keys && SameOutside(s, t, {id})
       else
         && s.triedTable[c] in s.info
         && var e := s.triedTable[c];
         var a := ServiceOf(s.info[e]);
         var u := s.h.NewCell(a, s.h.GetNewBucket(a, s.info[e].source));
         var occupant := if u in s.newTable then {s.newTable[u]} else {};
         && t.newTable == (s.newTable - Refs(s, id))[u := e]
         && e in t.info && SameEntry(s.info[e].(fInTried := false, nRefCount := 1), t.info[e])
         && t.info.Keys == s.info.Keys - (set x | x in occupant - {id} && x in s.info && s.info[x].nRefCount == 1)
         && (forall x | x in occupant - {id} && x in t.info && x in s.info ::
               SameEntry(s.info[x].(nRefCount := s.info[x].nRefCount - 1), t.info[x]))
         && SameOutside(s, t, {id, e} + occupant)
  }

  /**
  MakeTried puts the entry into its tried cell, out of every new cell, and touches besides it
  only the occupant of that cell and the entry in whose place that occupant goes.
  */
  lemma {:induction false} MakeTriedEffect(s: State, id: int)
    requires Consistent(s, {}, 0) && id in s.info && !s.info[id].fInTried
    ensures var t := MakeTried(s, id); var c := s.h.TriedCell(ServiceOf(s.info[id]));
            && t.info.Keys == s.info.Keys - MakeTriedLoses(s, id)
            && SameEntry(s.info[id].(fInTried := true, nRefCount := 0), t.info[id])
            && t.triedTable == s.triedTable[c := id]
            && SameOutside(s, t, EvictTouches(s, c) + {id})
    ensures Promotes(s, MakeTried(s, id), id)
  {
    StripKeeps(s, id);
    assert NewEntryOk(s, id, {});
    var t := Strip(s, id);
    var c := t.h.TriedCell(ServiceOf(t.info[id]));
    if c in t.triedTable {
      EvictEffect(t, c, {id}, 1);
      StripKeepsEviction(s, id, c);
      MakeTriedSeats(s, id, Evict(t, c, {id}, 1));
      MakeTriedSpares(s, id, Evict(t, c, {id}, 1));
      MakeTriedMoves(s, id, Evict(t, c, {id}, 1));
    }
  }

  /** The occupant of the tried cell goes where its source puts it. */
  lemma {:induction false} MakeTriedMoves(s: State, id: int, u: State)
    requires Indexed(s) && id in s.info && !s.info[id].fInTried && EvictedFor(s, id, u)
    requires var c := s.h.TriedCell(ServiceOf(s.info[id])); var t := Seat(u, id);
             && t.info.Keys == s.info.Keys - MakeTriedLoses(s, id)
             && t.triedTable == s.triedTable[c := id] && SameOutside(s, t, EvictTouches(s, c) + {id})
    ensures Promotes(s, Seat(u, id), id)
  {
    var c := s.h.TriedCell(ServiceOf(s.info[id]));
    var e, t := s.triedTable[c], Seat(u, id);
    StripTouchesOne(s, id);
    SeatTouchesOne(u, id);
    assert e in Strip(s, id).info && t.info[e] == u.info[e];
    assert MakeTriedLoses(s, id) == EvictLoses(s, c) - {id};
    var a := ServiceOf(s.info[e]);
    DereferencedThrough(s, id, u, s.h.NewCell(a, s.h.GetNewBucket(a, s.info[e].source)));
  }

  lemma {:induction false} DereferencedThrough(s: State, id: int, u: State, v: Cell)
    requires Indexed(s) && Indexed(u) && id in s.info && id in u.info && Dereferenced(Strip(s, id), u, v)
    ensures v in s.newTable && s.newTable[v] != id ==> Dereferenced(s, Seat(u, id), v)
  {
    StripTouchesOne(s, id);
    SeatTouchesOne(u, id);
  }

  /** What holds between stripping `id` and seating it over the evicted occupant of its tried cell. */
  ghost predicate EvictedFor(s: State, id: int, u: State)
    requires Indexed(s) && id in s.info
  {
    var c := s.h.TriedCell(ServiceOf(s.info[id]));
    && s.info[id].nRefCount == |Refs(s, id)|
    && c in s.triedTable && s.triedTable[c] in s.info && s.triedTable[c] != id
    && Evicted(Strip(s, id), u, c)
    && Indexed(u) && u.h == s.h && u.triedTable == s.triedTable - {c}
    && id !in EvictTouches(Strip(s, id), c) && id in u.info
  }

  lemma {:induction false} MakeTriedSeats(s: State, id: int, u: State)
    requires Indexed(s) && id in s.info && !s.info[id].fInTried && EvictedFor(s, id, u)
    ensures var c := s.h.TriedCell(ServiceOf(s.info[id])); var t := Seat(u, id);
            && SameEntry(s.info[id].(fInTried := true, nRefCount := 0), t.info[id])
            && t.triedTable == s.triedTable[c := id]
  {
    var c := s.h.TriedCell(ServiceOf(s.info[id]));
    assert SameEntry(Strip(s, id).info[id], u.info[id]);
    assert (s.triedTable - {c})[c := id] == s.triedTable[c := id];
  }

  lemma {:induction false} MakeTriedSpares(s: State, id: int, u: State)
    requires Indexed(s) && id in s.info && !s.info[id].fInTried && EvictedFor(s, id, u)
    ensures var c := s.h.TriedCell(ServiceOf(s.info[id])); var t := Seat(u, id);
            t.info.Keys == s.info.Keys - MakeTriedLoses(s, id) && SameOutside(s, t, EvictTouches(s, c) + {id})
  {
    var c := s.h.TriedCell(ServiceOf(s.info[id]));
    StripKeepsEviction(s, id, c);
    StripTouchesOne(s, id);
    SeatTouchesOne(u, id);
    SparedThrough(s, Strip(s, id), u, Seat(u, id), id, EvictTouches(s, c), EvictTouches(Strip(s, id), c));
  }

  lemma {:induction false} StripTouchesOne(s: State, id: int)
    requires Indexed(s) && id in s.info
    ensures Strip(s, id).info.Keys == s.info.Keys && forall x | x in s.info && x != id :: Strip(s, id).info[x] == s.info[x]
  {
  }

  lemma {:induction false} SeatTouchesOne(s: State, id: int)
    requires Indexed(s) && id in s.info
    ensures Seat(s, id).info.Keys == s.info.Keys && forall x | x in s.info && x != id :: Seat(s, id).info[x] == s.info[x]
  {
  }

  lemma {:induction false} SparedThrough(s: State, r: State, u: State, t: State, id: int, touched: set<int>, touched': set<int>)
    requires r.info.Keys == s.info.Keys && u.info.Keys <= r.info.Keys && t.info.Keys == u.info.Keys
    requires touched + {id} == touched' + {id}
    requires forall x | x in s.info && x != id :: r.info[x] == s.info[x]
    requires SameOutside(r, u, touched')
    requires forall x | x in u.info && x != id :: t.info[x] == u.info[x]
    ensures SameOutside(s, t, touched + {id})
  {
    forall x | x in t.info && x !in touched + {id} ensures x in s.info && SameEntry(s.info[x], t.info[x]) {
      assert x !in touched' && SameEntry(r.info[x], u.info[x]);
    }
  }

  /** The entry Good_ deletes: the last reference of the one displaced by the evicted occupant. */
  ghost function GoodLoses(s: State, a: Service): set<int> {
    if Known(s, a) && !s.info[s.addr[a.ip]].fInTried then MakeTriedLoses(s, s.addr[a.ip]) else {}
  }

  /**
  Good_ on a known address always leaves it tried, in its own cell, with fresh statistics; it
  removes exactly `GoodLoses`, which is at most one other address.
  */
  lemma {:induction false} GoodMovesToTried(s: State, a: Service, nTime: int)
    requires Consistent(s, {}, 0)
    requires a.ip in s.addr && s.addr[a.ip] in s.info && s.info[s.addr[a.ip]].addr.service == a
    ensures var t, id := Good(s, a, nTime), s.addr[a.ip];
            && id in t.info && ServiceOf(t.info[id]) == a && t.info[id].fInTried
            && t.info[id].nLastSuccess == t.info[id].nLastTry == nTime && t.info[id].nAttempts == 0
            && t.triedTable == s.triedTable[s.h.TriedCell(a) := id]
            && t.info.Keys == s.info.Keys - GoodLoses(s, a)
    ensures |GoodLoses(s, a)| <= 1 && s.addr[a.ip] !in GoodLoses(s, a)
    ensures var t, id := Good(s, a, nTime), s.addr[a.ip];
            if s.info[id].fInTried then t.newTable == s.newTable && t.info.Keys == s.info.Keys && SameOutside(s, t, {id})
            else Promotes(s, t, id)
  {
    var id := s.addr[a.ip];
    if s.info[id].fInTried {
      assert TriedEntryOk(s, id);
      assert s.triedTable[s.h.TriedCell(a) := id] == s.triedTable;
    } else {
      GoodPromotes(s, a, nTime);
    }
  }

  lemma {:induction false} GoodPromotes(s: State, a: Service, nTime: int)
    requires Consistent(s, {}, 0) && Known(s, a) && !s.info[s.addr[a.ip]].fInTried
    ensures var id := s.addr[a.ip];
            var i, t := s.info[id].(nLastSuccess := nTime, nLastTry := nTime, nAttempts := 0), Good(s, a, nTime);
            && SameEntry(i.(fInTried := true, nRefCount := 0), t.info[id])
            && t.triedTable == s.triedTable[s.h.TriedCell(a) := id]
            && t.info.Keys == s.info.Keys - MakeTriedLoses(s, id)
    ensures Promotes(s, Good(s, a, nTime), s.addr[a.ip])
  {
    var id := s.addr[a.ip];
    UpdateKeeps(s, id, Marked(s, id, nTime).info[id], {}, 0);
    var m := Marked(s, id, nTime);
    assert m.info.Keys == s.info.Keys && m.triedTable == s.triedTable && m.h == s.h;
    MakeTriedEffect(m, id);
    MarkedEvictsAlike(s, id, nTime);
    assert Good(s, a, nTime) == MakeTried(m, id);
    MarkedPromotesAlike(s, m, Good(s, a, nTime), id);
  }

  /** Statistics make no difference to what moving an entry does. */
  lemma {:induction false} MarkedPromotesAlike(s: State, m: State, t: State, id: int)
    requires Consistent(s, {}, 0) && id in s.info && !s.info[id].fInTried && id in m.info
    requires m == Update(s, id, m.info[id]) && ServiceOf(m.info[id]) == ServiceOf(s.info[id])
    requires m.info[id].nRefCount == s.info[id].nRefCount && Promotes(m, t, id)
    ensures Promotes(s, t, id)
  {
    var c := s.h.TriedCell(ServiceOf(s.info[id]));
    assert Refs(m, id) == Refs(s, id);
    if c in s.triedTable {
      assert TriedCellOk(s, c);
    }
  }

  /** Good_ does nothing about an address that is not known, or known with another port. */
  lemma {:induction false} GoodIgnores(s: State, a: Service, nTime: int)
    requires Consistent(s, {}, 0)
    requires !(a.ip in s.addr && s.addr[a.ip] in s.info && s.info[s.addr[a.ip]].addr.service == a)
    ensures Good(s, a, nTime) == s
  {
  }

  lemma {:induction false} MarkedEvictsAlike(s: State, id: int, nTime: int)
    requires Indexed(s) && id in s.info
    ensures var c := s.h.TriedCell(ServiceOf(s.info[id]));
            MakeTriedLoses(Marked(s, id, nTime), id) == MakeTriedLoses(s, id)
            && EvictTouches(Marked(s, id, nTime), c) == EvictTouches(s, c)
  {
  }

  /** Of the recorded times, Good_ keeps what Check_ demands exactly when it is given a positive time. */
  lemma {:induction false} GoodTimes(s: State, a: Service, nTime: int)
    requires Inv(s)
    ensures Inv(Good(s, a, nTime)) <==> Known(s, a) ==> nTime > 0
  {
    if Known(s, a) {
      GoodMovesToTried(s, a, nTime);
      var t, id := Good(s, a, nTime), s.addr[a.ip];
      assert t.info[id].nLastSuccess == nTime;
      if nTime > 0 {
        forall x | x in t.info ensures TimesFine(t.info[x])
        {
          assert x != id ==> Demoted(s.info[x], t.info[x]) && TimesFine(s.info[x]);
        }
      }
    }
  }
}
