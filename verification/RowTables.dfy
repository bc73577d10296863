/**
 The tables of the archetypes: for each archetype the entity in every row, the rows that are free, and how many elements
 each data column has. Entities point back by a word that packs archetype and row.
 */
module RowTables {
  import opened Basics
  import opened Entities

  type ArchetypeID = nat

  /** Columns of components without data do not exist. */
  datatype Table = Table(entityIdx: seq<nat>, freeRows: seq<nat>, columns: seq<Option<nat>>)

  // ----- Packed words -----

  /** `(uint64_t)a << 32 | r`. */
  function Pack(a: nat, r: nat): (w: nat)
  {
    a * TWO_32 + r
  }

  function Upper(w: nat): nat { w / TWO_32 }

  function Lower(w: nat): nat { w % TWO_32 }

  lemma Unpack(a: nat, r: nat)
    requires r < TWO_32
    ensures Upper(Pack(a, r)) == a && Lower(Pack(a, r)) == r
  {
    DivUnique(Pack(a, r), TWO_32, a, r);
  }

  // ----- The invariant -----

  /** Entity e sits in a row of its archetype's table. */
  ghost predicate Placed(rows: seq<nat>, data: map<ArchetypeID, Table>, e: nat)
    requires e < |rows|
  {
    Upper(rows[e]) in data
    && var t := data[Upper(rows[e])]; Lower(rows[e]) < |t.entityIdx| && t.entityIdx[Lower(rows[e])] == e
  }

  /** Row r of archetype a is empty, or holds an entity whose word says so. */
  ghost predicate SlotOk(rows: seq<nat>, size: nat, a: ArchetypeID, t: Table, r: nat)
    requires size <= |rows| && r < |t.entityIdx|
  {
    t.entityIdx[r] != INVALID_ID ==> t.entityIdx[r] < size && rows[t.entityIdx[r]] == Pack(a, r)
  }

  /** The free list holds the empty rows, each once. */
  ghost predicate FreeRowsOk(t: Table) {
    && (forall j, k | 0 <= j < k < |t.freeRows| :: t.freeRows[j] != t.freeRows[k])
    && (forall r: nat :: r in t.freeRows <==> r < |t.entityIdx| && t.entityIdx[r] == INVALID_ID)
  }

  /** A table of archetype a that has no more rows than there are entities. */
  ghost predicate TableOk(rows: seq<nat>, size: nat, a: ArchetypeID, t: Table)
    requires size <= |rows|
  {
    && FreeRowsOk(t)
    && |t.entityIdx| <= size
    && forall r | 0 <= r < |t.entityIdx| :: SlotOk(rows, size, a, t, r)
  }

  /** Entities and occupied rows are in bijection. */
  ghost predicate RowsOk(rows: seq<nat>, size: nat, data: map<ArchetypeID, Table>) {
    && size <= |rows| && size <= ENTITY_LIMIT_COUNT + 1
    && (forall e | 0 <= e < size :: Placed(rows, data, e))
    && (forall a <- data :: TableOk(rows, size, a, data[a]))
  }

  /** Every data column has `extra` elements more than there are rows. */
  ghost predicate ColumnsAhead(t: Table, extra: nat) {
    forall i | 0 <= i < |t.columns| :: t.columns[i].Some? ==> t.columns[i].value == |t.entityIdx| + extra
  }

  /** Every column is as long as its archetype's row vector, but for archetype b, where `need` entities are still to come. */
  ghost predicate ColumnsDue(data: map<ArchetypeID, Table>, b: ArchetypeID, need: nat) {
    forall a <- data :: ColumnsAhead(data[a], if a == b then Appended(data[a], need) else 0)
  }

  ghost predicate ColumnsOk(data: map<ArchetypeID, Table>) {
    forall a <- data :: ColumnsAhead(data[a], 0)
  }

  /** The two tables have the same columns, whatever their lengths. */
  predicate SameColumns(t: Table, t': Table) {
    |t.columns| == |t'.columns| && forall i | 0 <= i < |t.columns| :: t.columns[i].Some? <==> t'.columns[i].Some?
  }

  /** In every table. */
  predicate AllSameColumns(data: map<ArchetypeID, Table>, data': map<ArchetypeID, Table>) {
    data'.Keys == data.Keys && forall a <- data :: SameColumns(data[a], data'[a])
  }

  // ----- Operations on one table -----

  /** Room for `need` more entities in the columns, counting the free rows first. */
  function EmplaceSpace(t: Table, need: nat): (t': Table)
    ensures t'.entityIdx == t.entityIdx && t'.freeRows == t.freeRows
  {
    if |t.freeRows| > need then t
    else t.(columns := seq(|t.columns|, i requires 0 <= i < |t.columns| =>
                        if t.columns[i].Some? then Some(t.columns[i].value + (need - |t.freeRows|)) else None))
  }

  /** The row the next entity gets: the last one freed, or a new one. */
  function NextRow(t: Table): (r: nat)
  {
    if t.freeRows != [] then t.freeRows[|t.freeRows| - 1] else |t.entityIdx|
  }

  function Put(t: Table, e: nat): (t': Table)
    requires t.freeRows != [] ==> t.freeRows[|t.freeRows| - 1] < |t.entityIdx|
  {
    if t.freeRows != [] then
      t.(entityIdx := t.entityIdx[NextRow(t) := e], freeRows := t.freeRows[..|t.freeRows| - 1])
    else t.(entityIdx := t.entityIdx + [e])
  }

  function Vacate(t: Table, r: nat): (t': Table)
    requires r < |t.entityIdx|
  {
    t.(entityIdx := t.entityIdx[r := INVALID_ID], freeRows := t.freeRows + [r])
  }

  /** How many rows placing `need` more entities appends. */
  function Appended(t: Table, need: nat): nat {
    if need > |t.freeRows| then need - |t.freeRows| else 0
  }

  /** Reserving leaves the columns ahead by just what placing the entities appends. */
  lemma EmplaceColumns(t: Table, need: nat)
    requires ColumnsAhead(t, 0)
    ensures ColumnsAhead(EmplaceSpace(t, need), Appended(t, need))
  {
  }

  /** Each placement uses up what was reserved for it. */
  lemma PutColumns(t: Table, e: nat, need: nat)
    requires FreeRowsOk(t) && need > 0 && ColumnsAhead(t, Appended(t, need))
    ensures t.freeRows != [] ==> t.freeRows[|t.freeRows| - 1] < |t.entityIdx|
    ensures ColumnsAhead(Put(t, e), Appended(Put(t, e), need - 1))
  {
    if t.freeRows != [] {
      assert t.freeRows[|t.freeRows| - 1] in t.freeRows;
    }
  }

  lemma EmplaceSameColumns(data: map<ArchetypeID, Table>, b: ArchetypeID, need: nat)
    requires b in data
    ensures AllSameColumns(data, data[b := EmplaceSpace(data[b], need)])
  {
  }

  lemma CreateSameColumns(data: map<ArchetypeID, Table>, e: nat, a: ArchetypeID)
    requires a in data
    ensures var t := EmplaceSpace(data[a], 1);
      (t.freeRows != [] ==> NextRow(t) < |t.entityIdx|) ==> AllSameColumns(data, data[a := Put(t, e)])
  {
  }

  lemma MoveSameColumns(before: map<ArchetypeID, Table>, data: map<ArchetypeID, Table>, e: nat, a: ArchetypeID, r: nat, b: ArchetypeID)
    requires AllSameColumns(before, data) && a in data && b in data && a != b && r < |data[a].entityIdx|
    requires data[b].freeRows != [] ==> NextRow(data[b]) < |data[b].entityIdx|
    ensures AllSameColumns(before, data[b := Put(data[b], e)][a := Vacate(data[a], r)])
  {
  }

  // ----- Counting: a table never needs more rows than there are entities -----

  function Below(n: nat): (r: set<nat>)
    ensures |r| == n && forall x: nat :: x in r <==> x < n
  {
    if n == 0 then {} else Below(n - 1) + {n - 1}
  }

  /** Distinct numbers below n that leave out e are fewer than n. */
  lemma Pigeonhole(s: seq<nat>, n: nat, e: nat)
    requires forall i, j | 0 <= i < j < |s| :: s[i] != s[j]
    requires e < n && forall i | 0 <= i < |s| :: s[i] < n && s[i] != e
    ensures |s| < n
  {
    var used := set i | 0 <= i < |s| :: s[i];
    CountDistinct(s);
    assert used <= Below(n) - {e};
    SubsetSize(used, Below(n) - {e});
  }

  lemma {:induction false} CountDistinct(s: seq<nat>)
    requires forall i, j | 0 <= i < j < |s| :: s[i] != s[j]
    ensures |set i | 0 <= i < |s| :: s[i]| == |s|
  {
    if s != [] {
      var init, last := s[..|s| - 1], s[|s| - 1];
      CountDistinct(init);
      var a, b := set i | 0 <= i < |s| :: s[i], set i | 0 <= i < |init| :: init[i];
      assert a == b + {last} by {
        forall x
          ensures x in a <==> x in b || x == last
        {
          if x in b {
            var i :| 0 <= i < |init| && init[i] == x;
            assert s[i] == x;
          }
          if x in a {
            var i :| 0 <= i < |s| && s[i] == x;
            assert i < |init| ==> init[i] == x;
          }
        }
      }
    }
  }

  lemma {:induction false} SubsetSize<T>(a: set<T>, b: set<T>)
    requires a <= b
    ensures |a| <= |b|
    decreases b
  {
    if a != {} {
      var x :| x in a;
      SubsetSize(a - {x}, b - {x});
    }
  }

  /** A table without free rows holds distinct entities; without entity e, it has fewer rows than there are entities. */
  lemma RoomFor(rows: seq<nat>, size: nat, b: ArchetypeID, t: Table, e: nat)
    requires size <= |rows| && TableOk(rows, size, b, t) && t.freeRows == [] && e < size
    requires forall r | 0 <= r < |t.entityIdx| :: t.entityIdx[r] != e
    ensures |t.entityIdx| < size
  {
    forall r | 0 <= r < |t.entityIdx|
      ensures t.entityIdx[r] < size && rows[t.entityIdx[r]] == Pack(b, r)
    {
      assert SlotOk(rows, size, b, t, r);
      assert r !in t.freeRows;
    }
    Pigeonhole(t.entityIdx, size, e);
  }

  // ----- Moving one entity -----

  /** rows' differs from rows at e alone. */
  predicate OnlyAt(rows: seq<nat>, rows': seq<nat>, size: nat, e: nat) {
    size <= |rows| && size <= |rows'| && forall x | 0 <= x < size && x != e :: rows'[x] == rows[x]
  }

  lemma OtherTable(rows: seq<nat>, rows': seq<nat>, size: nat, e: nat, c: ArchetypeID, t: Table)
    requires OnlyAt(rows, rows', size, e) && TableOk(rows, size, c, t)
    requires forall r | 0 <= r < |t.entityIdx| :: t.entityIdx[r] != e
    ensures TableOk(rows', size, c, t)
  {
    forall r | 0 <= r < |t.entityIdx|
      ensures SlotOk(rows', size, c, t, r)
    {
      assert SlotOk(rows, size, c, t, r);
    }
  }

  lemma PutFree(t: Table, e: nat)
    requires FreeRowsOk(t) && e != INVALID_ID
    ensures t.freeRows != [] ==> NextRow(t) < |t.entityIdx|
    ensures FreeRowsOk(Put(t, e))
  {
    if t.freeRows != [] {
      var last, rest := t.freeRows[|t.freeRows| - 1], t.freeRows[..|t.freeRows| - 1];
      assert last in t.freeRows;
      forall r: nat
        ensures r in rest <==> r in t.freeRows && r != last
      {
        if r in t.freeRows && r != last {
          var j :| 0 <= j < |t.freeRows| && t.freeRows[j] == r;
          assert rest[j] == r;
        }
      }
    }
  }

  lemma PutTable(rows: seq<nat>, rows': seq<nat>, size: nat, e: nat, b: ArchetypeID, t: Table)
    requires OnlyAt(rows, rows', size, e) && TableOk(rows, size, b, t) && e < size && e != INVALID_ID
    requires forall r | 0 <= r < |t.entityIdx| :: t.entityIdx[r] != e
    requires rows'[e] == Pack(b, NextRow(t))
    ensures t.freeRows != [] ==> NextRow(t) < |t.entityIdx|
    ensures TableOk(rows', size, b, Put(t, e))
    ensures NextRow(t) < size
  {
    PutFree(t, e);
    if t.freeRows == [] {
      RoomFor(rows, size, b, t, e);
    }
    forall r | 0 <= r < |Put(t, e).entityIdx|
      ensures SlotOk(rows', size, b, Put(t, e), r)
    {
      if r != NextRow(t) {
        assert SlotOk(rows, size, b, t, r);
      }
    }
  }

  lemma VacateTable(rows: seq<nat>, rows': seq<nat>, size: nat, e: nat, a: ArchetypeID, t: Table, r: nat)
    requires OnlyAt(rows, rows', size, e) && TableOk(rows, size, a, t) && e < size && e != INVALID_ID
    requires r < |t.entityIdx| && t.entityIdx[r] == e && rows[e] == Pack(a, r)
    ensures TableOk(rows', size, a, Vacate(t, r))
  {
    var t' := Vacate(t, r);
    assert r !in t.freeRows;
    forall x: nat
      ensures x in t'.freeRows <==> x in t.freeRows || x == r
    {
      assert t'.freeRows[|t.freeRows|] == r;
    }
    forall x | 0 <= x < |t'.entityIdx|
      ensures SlotOk(rows', size, a, t', x)
    {
      assert SlotOk(rows, size, a, t, x);
      assert x != r ==> t.entityIdx[x] != e;
    }
  }

  /**
   Entity e leaves row r of archetype a for the next row of archetype b. The bijection is kept, no other entity's word
   changes, and e's word names its new row.
   */
  lemma MoveKeepsRows(rows: seq<nat>, size: nat, data: map<ArchetypeID, Table>, e: nat, a: ArchetypeID, r: nat, b: ArchetypeID)
    requires RowsOk(rows, size, data) && e < size && a != b && a in data && b in data
    requires rows[e] == Pack(a, r) && r < TWO_32
    ensures r < |data[a].entityIdx| && NextRow(data[b]) < TWO_32
    ensures data[b].freeRows != [] ==> NextRow(data[b]) < |data[b].entityIdx|
    ensures RowsOk(rows[e := Pack(b, NextRow(data[b]))], size, data[b := Put(data[b], e)][a := Vacate(data[a], r)])
  {
    Unpack(a, r);
    assert Placed(rows, data, e);
    var w := NextRow(data[b]);
    PutFree(data[b], e);
    var rows', data' := rows[e := Pack(b, w)], data[b := Put(data[b], e)][a := Vacate(data[a], r)];
    forall c, x | c in data && c != a && 0 <= x < |data[c].entityIdx|
      ensures data[c].entityIdx[x] != e
    {
      assert SlotOk(rows, size, c, data[c], x);
    }
    PutTable(rows, rows', size, e, b, data[b]);
    VacateTable(rows, rows', size, e, a, data[a], r);
    forall c | c in data'
      ensures TableOk(rows', size, c, data'[c])
    {
      if c != a && c != b {
        OtherTable(rows, rows', size, e, c, data[c]);
      }
    }
    Unpack(b, w);
    forall x | 0 <= x < size
      ensures Placed(rows', data', x)
    {
      assert Placed(rows, data, x);
    }
  }

  /** A new entity, the next after all others, takes the next row of archetype a. */
  lemma CreateKeepsRows(rows: seq<nat>, rows': seq<nat>, size: nat, data: map<ArchetypeID, Table>, a: ArchetypeID)
    requires RowsOk(rows, size, data) && size <= ENTITY_LIMIT_COUNT && a in data
    requires size < |rows'| && rows'[..size] == rows[..size] && rows'[size] == Pack(a, NextRow(data[a]))
    ensures NextRow(data[a]) < TWO_32
    ensures data[a].freeRows != [] ==> NextRow(data[a]) < |data[a].entityIdx|
    ensures RowsOk(rows', size + 1, data[a := Put(data[a], size)])
  {
    var n := size + 1;
    PutFree(data[a], size);
    var data' := data[a := Put(data[a], size)];
    forall c, x | c in data && 0 <= x < |data[c].entityIdx|
      ensures data[c].entityIdx[x] != size && SlotOk(rows', n, c, data[c], x)
    {
      assert SlotOk(rows, size, c, data[c], x);
      assert forall y | 0 <= y < size :: rows'[..size][y] == rows[..size][y];
    }
    assert TableOk(rows', n, a, data[a]);
    PutTable(rows', rows', n, size, a, data[a]);
    Unpack(a, NextRow(data[a]));
    forall x | 0 <= x < n
      ensures Placed(rows', data', x)
    {
      if x < size {
        assert rows'[..size][x] == rows[..size][x];
        assert Placed(rows, data, x);
      }
    }
  }

  /** Tables of new archetypes start empty and change nothing. */
  lemma GrowKeepsRows(rows: seq<nat>, size: nat, data: map<ArchetypeID, Table>, data': map<ArchetypeID, Table>)
    requires RowsOk(rows, size, data)
    requires forall a <- data :: a in data' && data'[a] == data[a]
    requires forall a <- data' :: a in data || (data'[a].entityIdx == [] && data'[a].freeRows == [])
    ensures RowsOk(rows, size, data')
  {
    forall x | 0 <= x < size
      ensures Placed(rows, data', x)
    {
      assert Placed(rows, data, x);
    }
  }

  /** The word of an entity names the row that holds it, and no other row of any archetype holds it. */
  lemma OneRowEach(rows: seq<nat>, size: nat, data: map<ArchetypeID, Table>, e: nat, a: ArchetypeID, r: nat)
    requires RowsOk(rows, size, data) && e < size && a in data && r < |data[a].entityIdx|
    ensures data[a].entityIdx[r] == e <==> a == Upper(rows[e]) && r == Lower(rows[e])
  {
    assert Placed(rows, data, e);
    assert SlotOk(rows, size, a, data[a], r);
    Unpack(a, r);
  }

  // ----- Columns of all tables -----

  lemma ReserveColumns(data: map<ArchetypeID, Table>, b: ArchetypeID, need: nat)
    requires ColumnsOk(data) && b in data
    ensures ColumnsDue(data[b := EmplaceSpace(data[b], need)], b, need)
  {
    EmplaceColumns(data[b], need);
  }

  lemma MoveColumns(data: map<ArchetypeID, Table>, e: nat, a: ArchetypeID, r: nat, b: ArchetypeID, need: nat)
    requires a in data && b in data && a != b && r < |data[a].entityIdx| && FreeRowsOk(data[b]) && need > 0
    requires ColumnsDue(data, b, need)
    ensures data[b].freeRows != [] ==> NextRow(data[b]) < |data[b].entityIdx|
    ensures ColumnsDue(data[b := Put(data[b], e)][a := Vacate(data[a], r)], b, need - 1)
  {
    PutColumns(data[b], e, need);
  }

  lemma AllColumns(data: map<ArchetypeID, Table>, b: ArchetypeID)
    ensures ColumnsDue(data, b, 0) <==> ColumnsOk(data)
  {
    assert forall a <- data :: Appended(data[a], 0) == 0;
  }

  /** Reserving changes columns alone. */
  lemma ReserveKeepsRows(rows: seq<nat>, size: nat, data: map<ArchetypeID, Table>, b: ArchetypeID, need: nat)
    requires RowsOk(rows, size, data) && b in data
    ensures RowsOk(rows, size, data[b := EmplaceSpace(data[b], need)])
  {
    var data' := data[b := EmplaceSpace(data[b], need)];
    forall e | 0 <= e < size
      ensures Placed(rows, data', e)
    {
      assert Placed(rows, data, e);
    }
    forall a <- data'
      ensures TableOk(rows, size, a, data'[a])
    {
      assert TableOk(rows, size, a, data[a]);
      assert forall r | 0 <= r < |data'[a].entityIdx| :: SlotOk(rows, size, a, data[a], r) == SlotOk(rows, size, a, data'[a], r);
    }
  }

  /** A new entity takes the next row of archetype a, for which room was made first. */
  lemma CreateTables(rows: seq<nat>, rows': seq<nat>, size: nat, data: map<ArchetypeID, Table>, a: ArchetypeID)
    requires RowsOk(rows, size, data) && ColumnsOk(data) && size <= ENTITY_LIMIT_COUNT && a in data
    requires size < |rows'| && rows'[..size] == rows[..size] && rows'[size] == Pack(a, NextRow(data[a]))
    ensures var t := EmplaceSpace(data[a], 1);
      && NextRow(t) < TWO_32
      && (t.freeRows != [] ==> NextRow(t) < |t.entityIdx|)
      && RowsOk(rows', size + 1, data[a := Put(t, size)]) && ColumnsOk(data[a := Put(t, size)])
  {
    var t := EmplaceSpace(data[a], 1);
    var data' := data[a := t];
    ReserveKeepsRows(rows, size, data, a, 1);
    CreateKeepsRows(rows, rows', size, data', a);
    EmplaceColumns(data[a], 1);
    PutColumns(t, size, 1);
    assert data'[a := Put(t, size)] == data[a := Put(t, size)];
  }
}
