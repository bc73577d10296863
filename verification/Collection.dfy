/**
 The collection: entities, archetype graph and the deferred command buffer. Commands are recorded per entity; submit
 turns them into moves between archetype tables. The ghost field `spec` runs the simple semantics alongside.
 */
module Collections {
  import opened Basics
  import opened Entities
  import opened Ordered
  import opened RowTables
  import opened Commands
  import opened Moves
  import opened ArchetypeGraph

  /** Listed moves belong to recorded pairs, and recorded pairs are archetypes apart. */
  ghost predicate KeysOk(moves: map<Key, seq<Mover>>, record: set<Key>, components: map<ArchetypeID, seq<ComponentID>>) {
    && (forall q <- moves :: moves[q] != [] ==> q in record)
    && (forall q <- record :: q in moves && q.from in components && q.to in components && q.from != q.to)
  }

  /** Ids of components are those of named entities, or start behind the largest entity index. */
  predicate IdsOk(layouts: map<ComponentID, ComponentLayout>, size: nat) {
    forall c <- layouts :: c < size || c >= ENTITY_LIMIT_COUNT
  }

  lemma GrowAll(w: World, data: map<ArchetypeID, Table>, components: map<ArchetypeID, seq<ComponentID>>,
                data': map<ArchetypeID, Table>, moves: map<Key, seq<Mover>>, home: map<nat, Home>, record: set<Key>)
    requires w.Ok(moves, home) && RowsOk(w.rows, w.size, data) && ColumnsOk(data) && KeysOk(moves, record, w.components)
    requires Grown(w.components, data, components, data')
    ensures w.(components := components).Ok(moves, home)
    ensures RowsOk(w.rows, w.size, data') && ColumnsOk(data') && KeysOk(moves, record, components)
  {
    GrowWorld(w, components, moves, home);
    GrowKeepsRows(w.rows, w.size, data, data');
  }

  lemma ListKey(moves: map<Key, seq<Mover>>, record: set<Key>, components: map<ArchetypeID, seq<ComponentID>>, k: Key, m: Mover)
    requires KeysOk(moves, record, components) && k.from in components && k.to in components && k.from != k.to
    ensures KeysOk(moves[k := MovesAt(moves, k) + [m]], record + {k}, components)
  {
  }

  /** One move, in the tables and in the snapshot. */
  lemma MoveBoth(w: World, data: map<ArchetypeID, Table>, moves: map<Key, seq<Mover>>, home: map<nat, Home>,
                 k: Key, i: nat, need: nat)
    requires w.Ok(moves, home) && Listed(moves, home, k, i) && k in moves && i < |moves[k]| && need > 0
    requires RowsOk(w.rows, w.size, data) && ColumnsDue(data, k.to, need)
    requires k.from in data && k.to in data && k.from != k.to
    ensures var e, r := moves[k][i].entity, moves[k][i].row;
      && e in home && e < w.size && r < |data[k.from].entityIdx|
      && (data[k.to].freeRows != [] ==> NextRow(data[k.to]) < |data[k.to].entityIdx|)
      && var rows', data' := w.rows[e := Pack(k.to, NextRow(data[k.to]))],
                             data[k.to := Put(data[k.to], e)][k.from := Vacate(data[k.from], r)];
      && w.(rows := rows').Ok(moves, home - {e}) && Listed(moves, home - {e}, k, i + 1)
      && RowsOk(rows', w.size, data') && ColumnsDue(data', k.to, need - 1)
  {
    var e, r := moves[k][i].entity, moves[k][i].row;
    assert home[e] == Home(k, i);
    assert w.Leaving(moves, e, home[e]);
    MoveKeepsRows(w.rows, w.size, data, e, k.from, r, k.to);
    MoveColumns(data, e, k.from, r, k.to, need);
    FinishMove(w, moves, home, k, i, NextRow(data[k.to]));
  }

  lemma StartListed(moves: map<Key, seq<Mover>>, components: map<ArchetypeID, seq<ComponentID>>)
    requires KeysOk(moves, {}, components)
    ensures Listed(moves, map[], NO_KEY, 0)
  {
  }

  lemma Sizes(w: World, moves: map<Key, seq<Mover>>, home: map<nat, Home>)
    requires w.Ok(moves, home)
    ensures w.size <= |w.rows| && w.size <= |w.records| && |w.spec| == w.size
  {
  }

  ghost predicate PendingIn(records: seq<set<Command>>, es: seq<nat>, stuck: set<nat>) {
    forall e: nat :: e < |records| && records[e] != {} ==> e in es || e in stuck
  }

  lemma NoRecord(datas: seq<EntityData>, records: seq<set<Command>>, dirty: seq<nat>, stuck: set<nat>, e: nat)
    requires DirtyOk(datas, records, dirty, stuck) && e >= |datas|
    ensures e < |records| ==> records[e] == {}
  {
    assert !DirtyAt(datas, e);
  }

  /** Only stuck entities have commands pending. */
  ghost predicate NonePending(records: seq<set<Command>>, stuck: set<nat>) {
    forall e | 0 <= e < |records| && e !in stuck :: records[e] == {}
  }

  /** Stuck entities stay in the root archetype. */
  ghost predicate StuckInRoot(rows: seq<nat>, size: nat, stuck: set<nat>) {
    size <= |rows| && forall e <- stuck :: e < size && Upper(rows[e]) == 0
  }

  lemma DirtyNext(datas: seq<EntityData>, records: seq<set<Command>>, dirty: seq<nat>, stuck: set<nat>, i: nat)
    requires DirtyOk(datas, records, dirty, stuck) && i < |dirty|
    ensures dirty[i] < |datas| && dirty[i] !in dirty[..i] && dirty[i] in dirty[..i + 1] && dirty[i] !in stuck
    ensures forall e <- dirty[..i] :: e in dirty[..i + 1]
    ensures forall e <- dirty[i..] :: e == dirty[i] || e in dirty[i + 1..]
  {
    assert dirty[i] in dirty;
    assert dirty[..i + 1] == dirty[..i] + [dirty[i]];
    assert dirty[i..] == [dirty[i]] + dirty[i + 1..];
  }

  /**
   The moves of one pair, in order: room is made for all of them first, then each entity takes the next row of the target
   and leaves its captured row free.
   */
  method MoveEntities(k: Key, movers: seq<Mover>, rows: seq<nat>, data: map<ArchetypeID, Table>,
                      ghost w: World, ghost moves: map<Key, seq<Mover>>, ghost home: map<nat, Home>)
    returns (rows': seq<nat>, data': map<ArchetypeID, Table>, ghost home': map<nat, Home>)
    requires w.Ok(moves, home) && w.rows == rows && Listed(moves, home, k, 0) && k in moves && moves[k] == movers
    requires RowsOk(rows, w.size, data) && ColumnsOk(data)
    requires k.from in data && k.to in data && k.from != k.to
    ensures |rows'| == |rows| && AllSameColumns(data, data')
    ensures home'.Keys <= home.Keys && forall e | 0 <= e < |rows| && e !in home :: rows'[e] == rows[e]
    ensures w.(rows := rows').Ok(moves, home') && Listed(moves, home', k, |movers|)
    ensures RowsOk(rows', w.size, data') && ColumnsOk(data')
  {
    hide w.Ok, Listed, RowsOk, ColumnsOk, ColumnsDue, SameColumns;
    rows', home' := rows, home;
    data' := data[k.to := EmplaceSpace(data[k.to], |movers|)];
    ReserveKeepsRows(rows, w.size, data, k.to, |movers|);
    ReserveColumns(data, k.to, |movers|);
    EmplaceSameColumns(data, k.to, |movers|);
    for i := 0 to |movers|
      invariant |rows'| == |rows| && AllSameColumns(data, data')
      invariant home'.Keys <= home.Keys && forall e | 0 <= e < |rows| && e !in home :: rows'[e] == rows[e]
      invariant w.(rows := rows').Ok(moves, home') && Listed(moves, home', k, i)
      invariant RowsOk(rows', w.size, data') && ColumnsDue(data', k.to, |movers| - i)
    {
      MoveBoth(w.(rows := rows'), data', moves, home', k, i, |movers| - i);
      Sizes(w.(rows := rows'), moves, home');
      var e, oldRow := movers[i].entity, movers[i].row;
      var targetRow := NextRow(data'[k.to]);
      MoveSameColumns(data, data', e, k.from, oldRow, k.to);
      data' := data'[k.to := Put(data'[k.to], e)][k.from := Vacate(data'[k.from], oldRow)];
      rows' := rows'[e := Pack(k.to, targetRow)];
      home' := home' - {e};
    }
    AllColumns(data', k.to);
  }

  /** After the moves of a pair its list is empty. */
  lemma KeyDone(moves: map<Key, seq<Mover>>, record: set<Key>, components: map<ArchetypeID, seq<ComponentID>>, k: Key)
    requires KeysOk(moves, record, components) && k in record
    ensures KeysOk(moves[k := []], record, components)
  {
  }

  lemma NoMoves(moves: map<Key, seq<Mover>>, components: map<ArchetypeID, seq<ComponentID>>)
    requires forall q <- moves :: moves[q] == []
    ensures KeysOk(moves, {}, components)
  {
  }

  /** An entity has what it should have, unless it is stuck: then it has nothing. */
  lemma AllSettled(w: World, moves: map<Key, seq<Mover>>, stuck: set<nat>)
    requires w.Ok(moves, map[]) && NonePending(w.records, stuck) && StuckInRoot(w.rows, w.size, stuck)
    requires 0 in w.components && w.components[0] == []
    ensures forall e | 0 <= e < w.size ::
              Upper(w.rows[e]) in w.components
              && Elements(w.components[Upper(w.rows[e])]) == if e in stuck then {} else w.spec[e]
  {
    forall e | 0 <= e < w.size
      ensures Upper(w.rows[e]) in w.components
      ensures Elements(w.components[Upper(w.rows[e])]) == if e in stuck then {} else w.spec[e]
    {
      assert w.Resting(e);
      SettledIff(e, Elements(w.components[Upper(w.rows[e])]), w.records[e], w.spec[e], w.known);
    }
  }

  lemma EmptyState(known: set<ComponentID>)
    ensures var data := map[0 := Table([], [], [])];
      RowsOk([], 0, data) && ColumnsOk(data)
    ensures DirtyOk([], [], [], {}) && StuckInRoot([], 0, {}) && KeysOk(map[], {}, map[0 := []])
    ensures World([], 0, map[0 := []], [], [], known).Ok(map[], map[])
  {
  }

  /** Layouts of components stay; new components, which are named entities, are no pairs and have no data. */
  predicate Registered(layouts: map<ComponentID, ComponentLayout>, layouts': map<ComponentID, ComponentLayout>) {
    && (forall c <- layouts :: c in layouts')
    && forall c <- layouts' ::
      if c in layouts then layouts'[c] == layouts[c]
      else !layouts'[c].isPair && !layouts'[c].hasData && !layouts'[c].hasSecondData
  }

  lemma RegisteredSame(layouts: map<ComponentID, ComponentLayout>)
    ensures Registered(layouts, layouts)
  {
  }

  lemma RegisteredTwice(a: map<ComponentID, ComponentLayout>, b: map<ComponentID, ComponentLayout>, c: map<ComponentID, ComponentLayout>)
    requires Registered(a, b) && Registered(b, c)
    ensures Registered(a, c)
  {
  }

  class Collection {
    const entities: EntityVector
    const graph: Graph
    var dirty: seq<nat>
    var moveRecord: set<Key>
    var moves: map<Key, seq<Mover>>

    /** The components every entity would have if each command had been applied at once. */
    ghost var spec: seq<set<ComponentID>>

    /** The entities whose user flags held the mark when they were created. */
    ghost var stuck: set<nat>

    ghost function Snapshot(): World
      reads this, entities, graph
    {
      World(entities.archetypeRow, entities.size, graph.components, entities.commandRecord, spec, graph.layouts.Keys)
    }

    /** What holds at every step, also while moves are pending. */
    ghost predicate Base()
      reads this, entities, graph
    {
      && entities.Valid() && graph.Valid()
      && entities.freeIndex == [] && entities.removed == {} && entities.size == |entities.entityDatas|
      && RowsOk(entities.archetypeRow, entities.size, graph.data)
      && DirtyOk(entities.entityDatas, entities.commandRecord, dirty, stuck)
      && StuckInRoot(entities.archetypeRow, entities.size, stuck)
      && IdsOk(graph.layouts, entities.size)
    }

    /** What holds between operations. */
    ghost predicate Valid()
      reads this, entities, graph
    {
      && Base()
      && ColumnsOk(graph.data)
      && Snapshot().Ok(moves, map[])
      && moveRecord == {} && KeysOk(moves, moveRecord, graph.components)
    }

    /** The components an entity really has: those of the archetype its word names. */
    ghost function Comps(e: nat): set<ComponentID>
      requires Valid() && e < entities.size
      reads this, entities, graph
    {
      assert Snapshot().Resting(e);
      Elements(graph.components[Upper(entities.archetypeRow[e])])
    }

    /** Every entity really has what it should have; but a stuck entity has nothing. */
    ghost predicate Done()
      reads this, entities, graph
    {
      && Valid() && |spec| == entities.size
      && forall e | 0 <= e < entities.size :: Comps(e) == if e in stuck then {} else spec[e]
    }

    constructor (layouts: map<ComponentID, ComponentLayout>)
      requires forall c <- layouts :: c >= ENTITY_LIMIT_COUNT
      ensures Valid() && spec == [] && stuck == {} && fresh(entities) && fresh(graph) && graph.layouts == layouts
    {
      hide FreeOk, LivesOk, GraphOk, RowsOk, ColumnsOk, DirtyOk, World.Ok;
      entities := new EntityVector();
      graph := new Graph(layouts);
      dirty, moveRecord, moves, spec, stuck := [], {}, map[], [], {};
      new;
      EmptyState(layouts.Keys);
    }

    /** The row of a new entity in the root archetype. */
    method PlaceInRoot(n: nat, ghost rows: seq<nat>)
      requires entities.Valid() && graph.Valid() && n + 1 == entities.size <= ENTITY_LIMIT_COUNT + 1
      requires n <= |rows| && entities.archetypeRow[..n] == rows[..n]
      requires RowsOk(rows, n, graph.data) && ColumnsOk(graph.data)
      modifies entities`archetypeRow, graph`data
      ensures entities.Valid() && graph.Valid()
      ensures RowsOk(entities.archetypeRow, entities.size, graph.data) && ColumnsOk(graph.data)
      ensures |entities.archetypeRow| == |old(entities.archetypeRow)|
      ensures entities.archetypeRow[..n] == rows[..n] && Upper(entities.archetypeRow[n]) == 0
    {
      hide FreeOk, LivesOk, GraphOk, RowsOk, ColumnsOk, SameColumns;
      graph.RootFacts();
      graph.KeysFacts();
      var root := EmplaceSpace(graph.data[0], 1);
      var row := NextRow(root);
      ghost var rows' := entities.archetypeRow[n := Pack(0, row)];
      assert rows'[..n] == entities.archetypeRow[..n];
      CreateTables(rows, rows', n, graph.data, 0);
      CreateSameColumns(graph.data, n, 0);
      Unpack(0, row);
      entities.SetRow(n, Pack(0, row));
      graph.SetData(graph.data[0 := Put(root, n)]);
    }

    /** The handle of a new entity. With a fresh name it is entered as a component. */
    method Issue(named: bool, flag: bv32) returns (h: EntityHandle)
      requires Base() && entities.size <= ENTITY_LIMIT_COUNT && (named ==> entities.size !in graph.layouts)
      modifies entities, graph`layouts
      ensures entities.Valid() && graph.Valid() && entities.freeIndex == [] && entities.removed == {}
      ensures entities.size == |entities.entityDatas|
      ensures h == EntityHandle(old(entities.size), 0) && entities.size == h.index + 1
      ensures graph.layouts == if named then old(graph.layouts)[h.index := ComponentLayout(false, false, false)] else old(graph.layouts)
      ensures DirtyOk(entities.entityDatas, entities.commandRecord, dirty, stuck + if DirtyFlag(flag) then {h.index} else {})
      ensures old(entities.archetypeRow) <= entities.archetypeRow && old(entities.commandRecord) <= entities.commandRecord
      ensures entities.commandRecord[h.index] == {}
    {
      hide FreeOk, LivesOk, GraphOk, RowsOk, ColumnsOk, DirtyOk, DirtyFlag, StuckInRoot;
      ghost var records, datas := entities.commandRecord, entities.entityDatas;
      NoRecord(datas, records, dirty, stuck, entities.size);
      h := entities.NewEntity(named, flag);
      assert entities.entityDatas[..|datas|] == datas;
      NewNotDirty(datas, records, dirty, stuck, entities.entityDatas, entities.commandRecord, named, flag);
      if named {
        graph.Register(h.index, ComponentLayout(false, false, false));
      }
    }

    /**
     A new entity without components takes a row of the root archetype. A fresh name makes it a component as well. User
     flags that hold the mark make it stuck.
     */
    method CreateSingleEntity(named: bool, flag: bv32) returns (h: EntityHandle)
      requires Valid() && entities.size <= ENTITY_LIMIT_COUNT && (named ==> entities.size !in graph.layouts)
      modifies this, entities, graph
      ensures Valid() && spec == old(spec) + [{}] && entities.size == old(entities.size) + 1
      ensures h == EntityHandle(old(entities.size), 0) && Upper(entities.archetypeRow[h.index]) == 0
      ensures graph.layouts == if named then old(graph.layouts)[h.index := ComponentLayout(false, false, false)] else old(graph.layouts)
      ensures stuck == old(stuck) + (if DirtyFlag(flag) then {h.index} else {})
    {
      hide FreeOk, LivesOk, GraphOk, RowsOk, ColumnsOk, Listed, DirtyOk, World.Ok, KeysOk;
      graph.RootFacts();
      ghost var w := Snapshot();
      Sizes(w, moves, map[]);
      h := Issue(named, flag);
      PlaceInRoot(h.index, w.rows);
      spec := spec + [{}];
      stuck := stuck + if DirtyFlag(flag) then {h.index} else {};
      CreateWorld(w, Snapshot(), moves);
    }

    /** Marks an entity as dirty, once. */
    method Mark(e: nat)
      requires Valid() && e < entities.size
      modifies this`dirty, entities`entityDatas
      ensures Valid() && (e in dirty || e in stuck) && forall x <- old(dirty) :: x in dirty
    {
      if !DirtyAt(entities.entityDatas, e) {
        MarkDirty(entities.entityDatas, entities.commandRecord, dirty, stuck, e);
        entities.SetCommandDirty(e);
        dirty := dirty + [e];
      }
    }

    method MarkAll(es: seq<nat>)
      requires Valid() && (forall i | 0 <= i < |es| :: es[i] < entities.size)
      modifies this`dirty, entities`entityDatas
      ensures Valid() && forall j | 0 <= j < |es| :: es[j] in dirty || es[j] in stuck
    {
      hide FreeOk, LivesOk, GraphOk, RowsOk, ColumnsOk, Listed, DirtyOk, KeysOk, World.Ok;
      for i := 0 to |es|
        invariant Valid() && forall j | 0 <= j < i :: es[j] in dirty || es[j] in stuck
      {
        Mark(es[i]);
      }
    }

    /** Records one command: the opposite command cancels; otherwise it is inserted if it would have an effect. */
    method RecordCommand(e: nat, kind: CommandType, c: ComponentID)
      requires Valid() && e < entities.size && (e in dirty || e in stuck) && c in graph.layouts
      modifies this`spec, entities`commandRecord
      ensures Valid() && spec == old(spec)[e := Apply(e, old(spec)[e], kind, c)]
    {
      hide FreeOk, LivesOk, NodesOk, EdgesOk, RowsOk, ColumnsOk, Listed, DirtyOk;
      ghost var w := Snapshot();
      RecordWorld(w, moves, e, kind, c);
      var rec := entities.commandRecord[e];
      var has := graph.HasComponent(entities.archetypeRow[e], c);
      ghost var rec' := Record(e, has, rec, kind, c);
      RecordDirty(entities.entityDatas, entities.commandRecord, dirty, stuck, e, rec');
      if Command(Opposite(kind), c) in rec {
        rec := rec - {Command(Opposite(kind), c)};
      } else if kind == AddComponent {
        if !has && e != c {
          rec := rec + {Command(kind, c)};
        }
      } else if has {
        rec := rec + {Command(kind, c)};
      }
      entities.SetRecord(e, rec);
      spec := spec[e := Apply(e, spec[e], kind, c)];
    }

    /** The commands for one entity. */
    method RecordCommands(e: nat, kind: CommandType, coms: seq<ComponentID>)
      requires Valid() && e < entities.size && (e in dirty || e in stuck) && forall c <- coms :: c in graph.layouts
      modifies this`spec, entities`commandRecord
      ensures Valid() && spec == old(spec)[e := ApplyList(e, old(spec)[e], kind, coms)]
    {
      hide FreeOk, LivesOk, GraphOk, RowsOk, ColumnsOk, Listed, DirtyOk;
      for j := 0 to |coms|
        invariant Valid() && spec == old(spec)[e := ApplyList(e, old(spec)[e], kind, coms[..j])]
      {
        assert coms[..j + 1][..j] == coms[..j];
        RecordCommand(e, kind, coms[j]);
      }
      assert coms[..|coms|] == coms;
    }

    /**
     The commands for all listed entities: every entity is marked once, then each command is recorded or cancels its
     opposite. In effect they are applied at once, one after the other.
     */
    method RecordModify(es: seq<nat>, kind: CommandType, coms: seq<ComponentID>)
      requires Valid() && (forall i | 0 <= i < |es| :: es[i] < entities.size) && forall c <- coms :: c in graph.layouts
      modifies this`dirty, this`spec, entities`entityDatas, entities`commandRecord
      ensures Valid() && spec == ApplyAll(old(spec), kind, es, coms)
    {
      hide FreeOk, LivesOk, GraphOk, RowsOk, ColumnsOk, Listed, DirtyOk;
      MarkAll(es);
      assert es[..0] == [];
      for i := 0 to |es|
        invariant forall j | 0 <= j < |es| :: es[j] in dirty || es[j] in stuck
        invariant Valid() && spec == ApplyAll(old(spec), kind, es[..i], coms)
      {
        assert es[..i + 1][..i] == es[..i];
        RecordCommands(es[i], kind, coms);
      }
      assert es[..|es|] == es;
    }

    /** The indices of the handles that are alive. */
    method AliveIndices(handles: seq<EntityHandle>) returns (es: seq<nat>)
      requires Valid()
      ensures es == Live(handles, entities.size)
    {
      es := [];
      for i := 0 to |handles|
        invariant es == Live(handles[..i], entities.size)
      {
        assert handles[..i + 1][..i] == handles[..i];
        entities.AllAlive(handles[i]);
        if entities.IsAlive(handles[i]) {
          es := es + [handles[i].index];
        }
      }
      assert handles[..|handles|] == handles;
    }

    /** Records commands by handle. An unregistered component stops it before anything is recorded; dead handles are skipped. */
    method RecordHandles(kind: CommandType, handles: seq<EntityHandle>, coms: seq<ComponentID>) returns (ok: bool)
      requires Valid()
      modifies this`dirty, this`spec, entities`entityDatas, entities`commandRecord
      ensures Valid() && ok == forall c <- coms :: c in graph.layouts
      ensures spec == if ok then ApplyAll(old(spec), kind, Live(handles, entities.size), coms) else old(spec)
    {
      hide FreeOk, LivesOk, GraphOk, RowsOk, ColumnsOk, Listed, DirtyOk;
      for i := 0 to |coms|
        invariant forall j | 0 <= j < i :: coms[j] in graph.layouts
      {
        if coms[i] !in graph.layouts {
          return false;
        }
      }
      var es := AliveIndices(handles);
      RecordModify(es, kind, coms);
      return true;
    }

    /** What holds while moves are pending, each at the home `home` names. */
    ghost predicate Pending(home: map<nat, Home>)
      reads this, entities, graph
    {
      && Base()
      && ColumnsOk(graph.data)
      && Snapshot().Ok(moves, home) && Listed(moves, home, NO_KEY, 0)
      && KeysOk(moves, moveRecord, graph.components)
      && forall e <- home :: e !in stuck
    }

    /** The archetype the pending commands of an entity lead to. */
    method FindTarget(e: nat, ghost home: map<nat, Home>) returns (target: ArchetypeID)
      requires Pending(home) && e < entities.size && e !in home
      modifies graph`counter, graph`components, graph`edges, graph`data, graph`listToId, graph`position
      ensures Pending(home)
      ensures target in graph.components && Elements(graph.components[target]) == spec[e]
    {
      hide FreeOk, LivesOk, NodesOk, EdgesOk, PositionOk, RowsOk, ColumnsOk, Listed, DirtyOk, KeysOk, Grown, RecordOk;
      ghost var w, data := Snapshot(), graph.data;
      assert w.Resting(e);
      target := graph.Walk(Upper(entities.archetypeRow[e]), entities.commandRecord[e], e, spec[e]);
      GrowAll(w, data, graph.components, graph.data, moves, home, moveRecord);
    }

    /** Lists the move of one entity to its target, with the row it has now, and clears its commands. */
    method ListOne(e: nat, target: ArchetypeID, ghost home: map<nat, Home>) returns (ghost home': map<nat, Home>)
      requires Pending(home) && e < entities.size && e !in home && e !in stuck && entities.commandRecord[e] != {}
      requires target in graph.components && Elements(graph.components[target]) == spec[e]
      modifies this`moveRecord, this`moves, entities`commandRecord
      ensures Pending(home') && home'.Keys == home.Keys + {e}
      ensures entities.commandRecord == old(entities.commandRecord)[e := {}]
    {
      hide FreeOk, LivesOk, GraphOk, RowsOk, ColumnsOk, Listed, DirtyOk;
      var word := entities.archetypeRow[e];
      var k := Key(Upper(word), target);
      ghost var w := Snapshot();
      AnyKey(moves, home, NO_KEY, k);
      ListMove(w, moves, home, e, k, Lower(word));
      assert w.Resting(e);
      ListKey(moves, moveRecord, graph.components, k, Mover(e, Lower(word)));
      RecordDirty(entities.entityDatas, entities.commandRecord, dirty, stuck, e, {});
      home' := home[e := Home(k, |MovesAt(moves, k)|)];
      moveRecord := moveRecord + {k};
      moves := moves[k := MovesAt(moves, k) + [Mover(e, Lower(word))]];
      AnyKey(moves, home', k, NO_KEY);
      entities.SetRecord(e, {});
    }

    method PreprocessOne(e: nat, ghost home: map<nat, Home>) returns (ghost home': map<nat, Home>)
      requires Pending(home) && e < entities.size && e !in home && e !in stuck
      modifies this`moveRecord, this`moves, entities`commandRecord
      modifies graph`counter, graph`components, graph`edges, graph`data, graph`listToId, graph`position
      ensures Pending(home') && home'.Keys <= home.Keys + {e}
      ensures entities.commandRecord == old(entities.commandRecord)[e := {}]
    {
      hide FreeOk, LivesOk, GraphOk, RowsOk, ColumnsOk, Listed, DirtyOk, KeysOk, World.Ok;
      home' := home;
      Sizes(Snapshot(), moves, home);
      if entities.commandRecord[e] != {} {
        var target := FindTarget(e, home);
        home' := ListOne(e, target, home);
      }
    }

    /** Lists the moves of all dirty entities that have commands pending. */
    method Preprocess() returns (ghost home: map<nat, Home>)
      requires Valid()
      modifies this`moveRecord, this`moves, entities`commandRecord
      modifies graph`counter, graph`components, graph`edges, graph`data, graph`listToId, graph`position
      ensures Pending(home) && NonePending(entities.commandRecord, stuck)
    {
      hide FreeOk, LivesOk, GraphOk, RowsOk, ColumnsOk, Listed, World.Ok;
      home := map[];
      StartListed(moves, graph.components);
      assert dirty[0..] == dirty;
      for i := 0 to |dirty|
        invariant Pending(home) && forall e <- home :: e in dirty[..i]
        invariant PendingIn(entities.commandRecord, dirty[i..], stuck)
      {
        var e := dirty[i];
        Sizes(Snapshot(), moves, home);
        DirtyNext(entities.entityDatas, entities.commandRecord, dirty, stuck, i);
        home := PreprocessOne(e, home);
      }
    }

    /** The moves of one recorded pair. */
    method MoveKey(k: Key, ghost home: map<nat, Home>) returns (ghost home': map<nat, Home>)
      requires Pending(home) && k in moveRecord
      modifies this`moves, entities`archetypeRow, graph`data
      ensures Pending(home') && moves == old(moves)[k := []]
    {
      hide FreeOk, LivesOk, GraphOk, RowsOk, ColumnsOk, Listed, World.Ok, DirtyOk, IdsOk, SameColumns;
      graph.KeysFacts();
      AnyKey(moves, home, NO_KEY, k);
      ghost var w := Snapshot();
      var rows, data;
      rows, data, home' := MoveEntities(k, moves[k], entities.archetypeRow, graph.data, w, moves, home);
      ClearKey(w.(rows := rows), moves, home', k, NO_KEY);
      KeyDone(moves, moveRecord, graph.components, k);
      entities.SetRows(rows);
      graph.SetData(data);
      moves := moves[k := []];
    }

    /** The moves of all recorded pairs, in any order. */
    method SubmitMoves(ghost home: map<nat, Home>)
      requires Pending(home)
      modifies this`moves, entities`archetypeRow, graph`data
      ensures Pending(map[]) && forall q <- moves :: moves[q] == []
    {
      hide FreeOk, LivesOk, GraphOk, RowsOk, ColumnsOk, Listed, World.Ok, DirtyOk;
      ghost var h := home;
      var rest := moveRecord;
      while rest != {}
        invariant Pending(h) && rest <= moveRecord
        invariant forall q <- moves :: moves[q] != [] ==> q in rest
        decreases |rest|
      {
        var k :| k in rest;
        h := MoveKey(k, h);
        rest := rest - {k};
      }
      AllCleared(Snapshot(), moves, h);
    }

    /** Takes the marks off the dirty entities. */
    method ClearDirtyMarks()
      requires entities.Valid() && DirtyOk(entities.entityDatas, entities.commandRecord, dirty, stuck)
      requires NonePending(entities.commandRecord, stuck) && entities.size == |entities.entityDatas|
      modifies this`dirty, entities`entityDatas
      ensures entities.Valid() && DirtyOk(entities.entityDatas, entities.commandRecord, dirty, stuck) && dirty == []
      ensures |entities.entityDatas| == |old(entities.entityDatas)|
    {
      assert dirty[0..] == dirty;
      for i := 0 to |dirty|
        invariant entities.Valid() && dirty == old(dirty) && |entities.entityDatas| == |old(entities.entityDatas)|
        invariant forall e: nat :: e in dirty[i..] || e in stuck <==> DirtyAt(entities.entityDatas, e)
      {
        UnmarkDirty(entities.entityDatas, dirty, stuck, i);
        entities.SetCommandNoDirty(dirty[i]);
      }
      dirty := [];
    }

    lemma AllDone()
      requires Valid() && NonePending(entities.commandRecord, stuck)
      ensures Done()
    {
      hide FreeOk, LivesOk, GraphOk, RowsOk, ColumnsOk, Listed, DirtyOk, KeysOk, IdsOk;
      graph.RootFacts();
      AllSettled(Snapshot(), moves, stuck);
    }

    /**
     Carries out all pending commands. Afterwards every entity really has the components it would have if each command
     had been applied at once, and nothing is pending; but an entity that is stuck still has none.
     */
    method SubmitCommand()
      requires Valid()
      modifies this`dirty, this`moveRecord, this`moves
      modifies entities`archetypeRow, entities`commandRecord, entities`entityDatas
      modifies graph`counter, graph`components, graph`edges, graph`data, graph`listToId, graph`position
      ensures Valid() && dirty == [] && NonePending(entities.commandRecord, stuck)
      ensures Done()
    {
      hide FreeOk, LivesOk, GraphOk, RowsOk, ColumnsOk, Listed, DirtyOk, KeysOk, IdsOk, World.Ok, NonePending,
        StuckInRoot, Done;
      ghost var home := Preprocess();
      SubmitMoves(home);
      ClearDirtyMarks();
      moveRecord := {};
      NoMoves(moves, graph.components);
      AllDone();
    }

    /** One operation. */
    method Run(op: Op)
      requires Valid() && (op.Create? ==> entities.size <= ENTITY_LIMIT_COUNT && (op.named ==> entities.size !in graph.layouts))
      modifies this, entities, graph
      ensures Valid() && Simple(spec, graph.layouts.Keys) == Step(Simple(old(spec), old(graph.layouts.Keys)), op)
      ensures entities.size == old(entities.size) + if op.Create? then 1 else 0
      ensures stuck == old(stuck) + if op.Create? && DirtyFlag(op.flag) then {old(entities.size)} else {}
      ensures op.Submit? ==> Done()
      ensures Registered(old(graph.layouts), graph.layouts)
    {
      hide FreeOk, LivesOk, GraphOk, RowsOk, ColumnsOk, Listed, DirtyOk, DirtyFlag, World.Ok, KeysOk, IdsOk, Done;
      Sizes(Snapshot(), moves, map[]);
      match op
      case Create(named, flag) =>
        var _ := CreateSingleEntity(named, flag);
      case Modify(kind, handles, coms) =>
        var _ := RecordHandles(kind, handles, coms);
      case Submit =>
        SubmitCommand();
    }

    /**
     Any run of operations. The simple semantics is followed throughout, and when the run ends with a submit every entity
     really has the components the simple semantics gives it, unless its user flags held the mark.
     */
    method Replay(ops: seq<Op>)
      requires Valid() && entities.size + Creations(ops) <= ENTITY_LIMIT_COUNT + if ENTITY_LIMIT_COUNT in graph.layouts then 0 else 1
      modifies this, entities, graph
      ensures Valid() && Simple(spec, graph.layouts.Keys) == Steps(Simple(old(spec), old(graph.layouts.Keys)), ops)
      ensures stuck == old(stuck) + Marked(ops, old(entities.size))
      ensures ops != [] && ops[|ops| - 1].Submit? ==> Done()
      ensures Registered(old(graph.layouts), graph.layouts)
    {
      hide Valid, Done, DirtyFlag, Registered;
      RegisteredSame(graph.layouts);
      ghost var start, n := Simple(spec, graph.layouts.Keys), entities.size;
      for i := 0 to |ops|
        invariant Valid() && entities.size == n + Creations(ops[..i])
        invariant Simple(spec, graph.layouts.Keys) == Steps(start, ops[..i])
        invariant stuck == old(stuck) + Marked(ops[..i], n)
        invariant ENTITY_LIMIT_COUNT in graph.layouts ==> ENTITY_LIMIT_COUNT in start.known || entities.size > ENTITY_LIMIT_COUNT
        invariant i > 0 && ops[i - 1].Submit? ==> Done()
        invariant Registered(old(graph.layouts), graph.layouts)
      {
        assert ops[..i + 1][..i] == ops[..i];
        CreationsGrow(ops, i + 1);
        NewId();
        ghost var layouts := graph.layouts;
        Run(ops[i]);
        RegisteredTwice(old(graph.layouts), layouts, graph.layouts);
      }
      assert ops[..|ops|] == ops;
    }

    /**
     Every component of an entity has a column for just the data it has, two for a pair, and the entity's row lies in each of
     these columns.
     */
    lemma CellOf(e: nat, c: ComponentID)
      requires Valid() && e < entities.size && c in Comps(e)
      ensures var a, r := Upper(entities.archetypeRow[e]), Lower(entities.archetypeRow[e]);
        && a in graph.data && r < |graph.data[a].entityIdx| && graph.data[a].entityIdx[r] == e
        && c in graph.layouts && c in graph.position && a in graph.position[c]
        && var slot, layout, columns := graph.position[c][a], graph.layouts[c], graph.data[a].columns;
          && slot + (if layout.isPair then 1 else 0) < |columns|
          && (if layout.hasData then columns[slot].Some? && r < columns[slot].value else columns[slot].None?)
          && (layout.isPair ==>
                if layout.hasSecondData then columns[slot + 1].Some? && r < columns[slot + 1].value else columns[slot + 1].None?)
    {
      hide FreeOk, LivesOk, GraphOk, TableOk, Listed, DirtyOk, KeysOk, IdsOk;
      assert Snapshot().Resting(e);
      var a := Upper(entities.archetypeRow[e]);
      assert Placed(entities.archetypeRow, graph.data, e);
      graph.ColumnFacts(a, c);
      assert ColumnsAhead(graph.data[a], 0);
    }

    /** The next index is no component yet, but perhaps at the limit. */
    lemma NewId()
      requires Valid()
      ensures entities.size in graph.layouts ==> entities.size >= ENTITY_LIMIT_COUNT
      ensures |spec| == entities.size
    {
    }
  }
}
