/**
Moving entries between the new and the tried table: ClearNew, MakeTried and Good_.  Each step
breaks the consistency of the whole in a known way, which `Consistent(s, loose, missing)`
records, and the steps of one operation together restore it.
*/
module AddrManTables {
  import opened AddrManState

  //////////////////////////////////////////////////////////////////////////////
  //
  // The steps
  //
  //////////////////////////////////////////////////////////////////////////////

  /** Changing what an entry records about its address, and not the address, keeps the indexes. */
  lemma {:induction false} UpdateIndexed(s: State, id: int, i: AddrInfo)
    requires Indexed(s) && id in s.info
    requires IpOf(i) == IpOf(s.info[id]) && i.nRandomPos == s.info[id].nRandomPos
    ensures Indexed(Update(s, id, i))
  {
    var t := Update(s, id, i);
    forall x | x in t.info ensures EntryIndexed(t, x) {
      assert EntryIndexed(s, x);
    }
    forall ip | ip in t.addr ensures AddrIndexed(t, ip) {
      assert AddrIndexed(s, ip);
    }
    forall p | 0 <= p < |t.random| ensures SlotIndexed(t, p) {
      assert SlotIndexed(s, p);
    }
  }

  /** Indexed speaks of the entries and the indexes only. */
  lemma {:induction false} IndexedFrame(s: State, t: State)
    requires Indexed(s)
    requires t.info == s.info && t.addr == s.addr && t.random == s.random && t.nIdCount == s.nIdCount
    ensures Indexed(t)
  {
    forall x | x in t.info ensures EntryIndexed(t, x) {
      assert EntryIndexed(s, x);
    }
    forall ip | ip in t.addr ensures AddrIndexed(t, ip) {
      assert AddrIndexed(s, ip);
    }
    forall p | 0 <= p < |t.random| ensures SlotIndexed(t, p) {
      assert SlotIndexed(s, p);
    }
  }

  /** Empty the occupied new cell `c`. */
  ghost function Detach(s: State, c: Cell): (t: State)
    requires Indexed(s) && c in s.newTable && s.newTable[c] in s.info
    ensures Indexed(t)
  {
    var id := s.newTable[c];
    UpdateIndexed(s, id, s.info[id].(nRefCount := s.info[id].nRefCount - 1));
    var t := Update(s, id, s.info[id].(nRefCount := s.info[id].nRefCount - 1));
    IndexedFrame(t, t.(newTable := s.newTable - {c}));
    t.(newTable := s.newTable - {c})
  }

  /** One more reference to entry `id`, from the free new cell `c`. */
  ghost function Referenced(s: State, id: int, c: Cell): State
    requires id in s.info
  {
    Update(s, id, s.info[id].(nRefCount := s.info[id].nRefCount + 1)).(newTable := s.newTable[c := id])
  }

  /** Put entry `id` into the free new cell `c`. */
  ghost function Attach(s: State, id: int, c: Cell): (t: State)
    requires Indexed(s) && id in s.info
    ensures Indexed(t)
  {
    UpdateIndexed(s, id, s.info[id].(nRefCount := s.info[id].nRefCount + 1));
    IndexedFrame(Update(s, id, s.info[id].(nRefCount := s.info[id].nRefCount + 1)), Referenced(s, id, c));
    Referenced(s, id, c)
  }

  /** Clear a cell of the new table, deleting an entry that loses its last reference. */
  ghost function ClearNew(s: State, c: Cell): (t: State)
    requires Indexed(s) && (c in s.newTable ==> s.newTable[c] in s.info)
  {
    if c !in s.newTable then s
    else
      var t := Detach(s, c);
      if t.info[s.newTable[c]].nRefCount == 0 then Delete(t, s.newTable[c]) else t
  }

  /** Take entry `id` out of every new cell; it is no longer counted as new. */
  ghost function Strip(s: State, id: int): (t: State)
    requires Indexed(s) && id in s.info
    ensures Indexed(t)
  {
    var i := s.info[id].(nRefCount := s.info[id].nRefCount - |Refs(s, id)|);
    UpdateIndexed(s, id, i);
    var t := Update(s, id, i).(newTable := s.newTable - Refs(s, id), nNew := s.nNew - 1);
    IndexedFrame(Update(s, id, i), t);
    t
  }

  /** The cells of entry `id` in the first `b` new buckets. */
  ghost function RefsBelow(s: State, id: int, b: int): set<Cell> {
    set c | c in Refs(s, id) && c.bucket < b
  }

  /** Strip, as far as the first `b` buckets. */
  ghost function StripTo(s: State, id: int, b: int): State
    requires id in s.info
  {
    var i := s.info[id].(nRefCount := s.info[id].nRefCount - |RefsBelow(s, id, b)|);
    Update(s, id, i).(newTable := s.newTable - RefsBelow(s, id, b))
  }

  /** Every occupied new cell is one its occupant's address can have. */
  ghost predicate Placed(s: State) {
    forall c {:trigger NewCellOk(s, c)} | c in s.newTable :: NewCellOk(s, c)
  }

  /** Going over the cells an address can have, one bucket after the other, finds all its references. */
  lemma {:induction false} RefsStep(s: State, id: int, b: nat)
    requires id in s.info && Placed(s)
    ensures var c := s.h.NewCell(ServiceOf(s.info[id]), b);
            && RefsBelow(s, id, b + 1) == (if c in Refs(s, id) then RefsBelow(s, id, b) + {c} else RefsBelow(s, id, b))
            && c !in RefsBelow(s, id, b)
            && (c in s.newTable && s.newTable[c] == id <==> c in Refs(s, id))
  {
    var c := s.h.NewCell(ServiceOf(s.info[id]), b);
    forall d | d in RefsBelow(s, id, b + 1) && d !in RefsBelow(s, id, b) ensures d == c {
      assert NewCellOk(s, d);
    }
  }

  lemma {:induction false} StripStep(s: State, id: int, b: nat)
    requires id in s.info && Placed(s)
    ensures var c, t := s.h.NewCell(ServiceOf(s.info[id]), b), StripTo(s, id, b);
            && (c in t.newTable && t.newTable[c] == id <==> c in Refs(s, id))
            && StripTo(s, id, b + 1) ==
               if c in Refs(s, id) then
                 Update(t, id, t.info[id].(nRefCount := t.info[id].nRefCount - 1)).(newTable := t.newTable - {c})
               else t
  {
    RefsStep(s, id, b);
    var c, t := s.h.NewCell(ServiceOf(s.info[id]), b), StripTo(s, id, b);
    if c in Refs(s, id) {
      assert StripTo(s, id, b + 1).newTable == t.newTable - {c};
    }
  }

  lemma {:induction false} StripEnds(s: State, id: int)
    requires Indexed(s) && id in s.info && Placed(s)
    ensures StripTo(s, id, 0) == s
    ensures StripTo(s, id, NEW_BUCKET_COUNT).(nNew := s.nNew - 1) == Strip(s, id)
  {
    forall c | c in Refs(s, id) ensures 0 <= c.bucket < NEW_BUCKET_COUNT {
      assert NewCellOk(s, c);
    }
    assert RefsBelow(s, id, 0) == {};
    assert RefsBelow(s, id, NEW_BUCKET_COUNT) == Refs(s, id);
  }

  /** Take the entry in the occupied tried cell `c` out of the tried table. */
  ghost function Unseat(s: State, c: Cell): (t: State)
    requires Indexed(s) && c in s.triedTable && s.triedTable[c] in s.info
    ensures Indexed(t)
  {
    var id := s.triedTable[c];
    UpdateIndexed(s, id, s.info[id].(fInTried := false));
    var t := Update(s, id, s.info[id].(fInTried := false)).(triedTable := s.triedTable - {c}, nTried := s.nTried - 1);
    IndexedFrame(Update(s, id, s.info[id].(fInTried := false)), t);
    t
  }

  /** Put entry `id` into its tried cell. */
  ghost function Seat(s: State, id: int): (t: State)
    requires Indexed(s) && id in s.info
    ensures Indexed(t)
  {
    var i := s.info[id].(fInTried := true);
    UpdateIndexed(s, id, i);
    var t := Update(s, id, i).(triedTable := s.triedTable[s.h.TriedCell(ServiceOf(i)) := id], nTried := s.nTried + 1);
    IndexedFrame(Update(s, id, i), t);
    t
  }

  /** Two records of one address that agree but for placement; the later one is tried only if the earlier was. */
  predicate Demoted(i: AddrInfo, j: AddrInfo) {
    j == i.(nRefCount := j.nRefCount, fInTried := j.fInTried, nRandomPos := j.nRandomPos) && (j.fInTried ==> i.fInTried)
  }

  /** Every remaining entry outside `except` keeps its statistics and is promoted nowhere. */
  ghost predicate OnlyDemotes(s: State, t: State, except: set<int>) {
    forall x | x in t.info && x !in except :: x in s.info && Demoted(s.info[x], t.info[x])
  }

  //////////////////////////////////////////////////////////////////////////////
  //
  // What each step does to consistency
  //
  //////////////////////////////////////////////////////////////////////////////

  lemma {:induction false} DetachKeeps(s: State, c: Cell, loose: set<int>, missing: int)
    requires Consistent(s, loose, missing) && c in s.newTable
    ensures s.newTable[c] in s.info && s.newTable[c] !in loose
    ensures s.info[s.newTable[c]].nRefCount > 0
    ensures var t := Detach(s, c); var id := s.newTable[c];
            Consistent(t, if t.info[id].nRefCount == 0 then loose + {id} else loose, missing)
  {
    var id := s.newTable[c];
    assert NewCellOk(s, c);
    var t := Detach(s, c);
    assert NewEntryOk(s, id, loose);
    assert c in Refs(s, id);
    assert Refs(t, id) == Refs(s, id) - {c};
    assert NewIds(t) == NewIds(s) && TriedIds(t) == TriedIds(s);
    var loose' := if t.info[id].nRefCount == 0 then loose + {id} else loose;
    forall x | x in t.info && !t.info[x].fInTried ensures NewEntryOk(t, x, loose') {
      assert NewEntryOk(s, x, loose);
      assert x != id ==> Refs(t, x) == Refs(s, x);
    }
    TablesFrame(s, t, c);
  }

  /** Entries whose address and fInTried are unchanged stay where they are. */
  lemma {:induction false} TablesFrame(s: State, t: State, c: Cell)
    requires t.h == s.h && t.info.Keys == s.info.Keys && t.triedTable == s.triedTable
    requires forall x | x in s.info :: ServiceOf(t.info[x]) == ServiceOf(s.info[x]) && t.info[x].fInTried == s.info[x].fInTried
    requires forall x | x in s.info && s.info[x].fInTried :: t.info[x].nRefCount == s.info[x].nRefCount
    requires forall d | d in t.newTable && d != c :: d in s.newTable && t.newTable[d] == s.newTable[d]
    requires TriedConsistent(s) && forall d {:trigger NewCellOk(s, d)} | d in s.newTable :: NewCellOk(s, d)
    ensures TriedConsistent(t)
    ensures forall d {:trigger NewCellOk(t, d)} | d in t.newTable && d != c :: NewCellOk(t, d)
  {
    forall d | d in t.triedTable ensures TriedCellOk(t, d) {
      assert TriedCellOk(s, d);
    }
    forall x | x in t.info && t.info[x].fInTried ensures TriedEntryOk(t, x) {
      assert TriedEntryOk(s, x);
    }
    forall d | d in t.newTable && d != c ensures NewCellOk(t, d) {
      assert NewCellOk(s, d);
    }
  }

  lemma {:induction false} AttachKeeps(s: State, id: int, c: Cell, loose: set<int>, missing: int)
    requires Consistent(s, loose, missing) && id in s.info && !s.info[id].fInTried && c !in s.newTable
    requires s.info[id].nRefCount < NEW_BUCKETS_PER_ADDRESS
    requires 0 <= c.bucket < NEW_BUCKET_COUNT && c == s.h.NewCell(ServiceOf(s.info[id]), c.bucket)
    ensures Consistent(Attach(s, id, c), loose - {id}, missing)
  {
    ReferencedTabled(s, id, c, loose, missing);
  }

  lemma {:induction false} ReferencedTabled(s: State, id: int, c: Cell, loose: set<int>, missing: int)
    requires Tabled(s, loose, missing) && id in s.info && !s.info[id].fInTried && c !in s.newTable
    requires s.info[id].nRefCount < NEW_BUCKETS_PER_ADDRESS
    requires 0 <= c.bucket < NEW_BUCKET_COUNT && c == s.h.NewCell(ServiceOf(s.info[id]), c.bucket)
    ensures Tabled(Referenced(s, id, c), loose - {id}, missing)
  {
    var t := Referenced(s, id, c);
    assert NewEntryOk(s, id, loose);
    assert Refs(t, id) == Refs(s, id) + {c};
    assert NewIds(t) == NewIds(s) && TriedIds(t) == TriedIds(s);
    forall x | x in t.info && !t.info[x].fInTried ensures NewEntryOk(t, x, loose - {id}) {
      assert NewEntryOk(s, x, loose);
      assert x != id ==> Refs(t, x) == Refs(s, x);
    }
    TablesFrame(s, t, c);
    assert NewCellOk(t, c);
  }

  /** ClearNew frees its cell and keeps consistency; it deletes the occupant exactly when that held one reference. */
  lemma {:induction false} ClearNewKeeps(s: State, c: Cell, loose: set<int>, missing: int)
    requires Consistent(s, loose, missing)
    ensures c in s.newTable ==> s.newTable[c] in s.info && s.newTable[c] !in loose
    ensures Consistent(ClearNew(s, c), loose, missing)
    ensures ClearNew(s, c).newTable == s.newTable - {c}
    ensures ClearNew(s, c).triedTable == s.triedTable && ClearNew(s, c).h == s.h
    ensures ClearNew(s, c).info.Keys == s.info.Keys - ClearNewLoses(s, c)
    ensures forall id | id in ClearNew(s, c).info && (c in s.newTable ==> id != s.newTable[c]) ::
              ClearNew(s, c).info[id] == s.info[id].(nRandomPos := ClearNew(s, c).info[id].nRandomPos)
    ensures OnlyDemotes(s, ClearNew(s, c), {})
  {
    if c in s.newTable {
      var id := s.newTable[c];
      DetachKeeps(s, c, loose, missing);
      var t := Detach(s, c);
      if t.info[id].nRefCount == 0 {
        DeleteIndexed(t, id);
        DeleteKeeps(t, id, loose + {id}, missing);
        assert loose + {id} - {id} == loose;
        var u := Delete(t, id);
        forall x | x in u.info ensures u.info[x] == s.info[x].(nRandomPos := u.info[x].nRandomPos) {
          assert x in t.info - {id};
        }
      }
    } else {
      assert s.newTable - {c} == s.newTable;
    }
  }

  /** The occupant of a cleared cell, if it is still there, has one reference less. */
  lemma {:induction false} ClearNewCounts(s: State, c: Cell)
    requires Indexed(s) && c in s.newTable && s.newTable[c] in s.info && s.newTable[c] in ClearNew(s, c).info
    ensures var i := s.info[s.newTable[c]]; ClearNew(s, c).info[s.newTable[c]] == i.(nRefCount := i.nRefCount - 1)
  {
    var t := Detach(s, c);
    if t.info[s.newTable[c]].nRefCount == 0 {
      DeleteIndexed(t, s.newTable[c]);
    }
  }

  /** The entry that clearing cell `c` deletes, if any. */
  ghost function ClearNewLoses(s: State, c: Cell): set<int> {
    if c in s.newTable && s.newTable[c] in s.info && s.info[s.newTable[c]].nRefCount == 1 then {s.newTable[c]} else {}
  }

  lemma {:induction false} StripKeeps(s: State, id: int)
    requires Consistent(s, {}, 0) && id in s.info && !s.info[id].fInTried
    ensures Consistent(Strip(s, id), {id}, 1)
    ensures var t := Strip(s, id);
            && t.info == s.info[id := s.info[id].(nRefCount := 0)]
            && (forall c :: c in t.newTable <==> c in s.newTable && s.newTable[c] != id)
            && (forall c | c in t.newTable :: t.newTable[c] == s.newTable[c])
            && t == s.(info := t.info, newTable := t.newTable, nNew := s.nNew - 1)
  {
    var t := Strip(s, id);
    assert NewEntryOk(s, id, {});
    assert Refs(t, id) == {};
    assert NewIds(t) == NewIds(s) && TriedIds(t) == TriedIds(s);
    forall x | x in t.info && !t.info[x].fInTried ensures NewEntryOk(t, x, {id}) {
      assert NewEntryOk(s, x, {});
      assert x != id ==> Refs(t, x) == Refs(s, x);
    }
    TablesFrame(s, t, Cell(-1, 0));
    forall c | c in t.newTable ensures NewCellOk(t, c) {
      assert NewCellOk(s, c);
    }
  }

  lemma {:induction false} UnseatKeeps(s: State, c: Cell, loose: set<int>, missing: int)
    requires Consistent(s, loose, missing) && c in s.triedTable
    ensures s.triedTable[c] in s.info && s.info[s.triedTable[c]].fInTried && s.triedTable[c] !in loose
    ensures Consistent(Unseat(s, c), loose + {s.triedTable[c]}, missing + 1)
  {
    var id := s.triedTable[c];
    assert TriedCellOk(s, c);
    assert TriedEntryOk(s, id);
    var t := Unseat(s, c);
    var loose' := loose + {id};
    forall d | d in s.newTable ensures s.newTable[d] != id && d !in Refs(s, id) {
      assert NewCellOk(s, d);
    }
    assert Refs(t, id) == {};
    assert NewIds(t) == NewIds(s) + {id} && TriedIds(t) == TriedIds(s) - {id};
    forall d | d in t.triedTable ensures TriedCellOk(t, d) {
      assert TriedCellOk(s, d);
    }
    forall d | d in t.newTable ensures NewCellOk(t, d) {
      assert NewCellOk(s, d);
    }
    forall x | x in t.info ensures if t.info[x].fInTried then TriedEntryOk(t, x) else NewEntryOk(t, x, loose') {
      assert Refs(t, x) == Refs(s, x);
      if s.info[x].fInTried {
        assert TriedEntryOk(s, x);
      } else {
        assert NewEntryOk(s, x, loose);
      }
    }
  }

  lemma {:induction false} SeatKeeps(s: State, id: int)
    requires Consistent(s, {id}, 1) && id in s.info && s.h.TriedCell(ServiceOf(s.info[id])) !in s.triedTable
    ensures Consistent(Seat(s, id), {}, 0)
  {
    var c := s.h.TriedCell(ServiceOf(s.info[id]));
    var t := Seat(s, id);
    assert NewEntryOk(s, id, {id}) && Refs(s, id) == {};
    assert NewIds(t) == NewIds(s) - {id} && TriedIds(t) == TriedIds(s) + {id};
    forall d | d in t.triedTable ensures TriedCellOk(t, d) {
      assert d != c ==> TriedCellOk(s, d);
    }
    forall d | d in t.newTable ensures NewCellOk(t, d) {
      assert NewCellOk(s, d);
      assert s.newTable[d] == id ==> d in Refs(s, id);
    }
    forall x | x in t.info ensures if t.info[x].fInTried then TriedEntryOk(t, x) else NewEntryOk(t, x, {}) {
      assert Refs(t, x) == Refs(s, x);
      if s.info[x].fInTried {
        assert TriedEntryOk(s, x);
      } else {
        assert NewEntryOk(s, x, {id});
      }
    }
  }
}
