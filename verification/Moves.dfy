/**
 Entities on their way between archetypes: every pending move is listed once under its pair of archetypes, with the row
 captured when it was listed. Stated over a snapshot of the collection.
 */
module Moves {
  import opened Basics
  import opened Entities
  import opened Ordered
  import opened RowTables
  import opened Commands

  datatype Key = Key(from: ArchetypeID, to: ArchetypeID)
  datatype Mover = Mover(entity: nat, row: nat)

  /** Where the move of an entity is listed. */
  datatype Home = Home(key: Key, at: nat)

  /** `spec` holds the components each entity has under the simple semantics, `known` the registered components. */
  datatype World = World(rows: seq<nat>, size: nat, components: map<ArchetypeID, seq<ComponentID>>,
                         records: seq<set<Command>>, spec: seq<set<ComponentID>>, known: set<ComponentID>)
  {
    ghost predicate Sized() {
      size <= |rows| && size <= |records| && |spec| == size
    }

    /** The archetype of the entity, with its pending commands, amounts to what the entity should have. */
    ghost predicate Resting(e: nat)
      requires Sized() && e < size
    {
      Upper(rows[e]) in components && RecordOk(e, Elements(components[Upper(rows[e])]), records[e], spec[e], known)
    }

    /** Archetype `to` is just what the entity should have. */
    ghost predicate Leads(to: ArchetypeID, e: nat)
      requires Sized() && e < size
    {
      to in components && Elements(components[to]) == spec[e] && e !in spec[e] && records[e] == {}
    }

    /** The move of entity e is listed at h, and the row captured there is still the entity's row. */
    ghost predicate Leaving(moves: map<Key, seq<Mover>>, e: nat, h: Home)
      requires Sized() && e < size
    {
      && h.key in moves && h.at < |moves[h.key]|
      && moves[h.key][h.at].entity == e && moves[h.key][h.at].row < TWO_32
      && rows[e] == Pack(h.key.from, moves[h.key][h.at].row)
      && h.key.from in components && h.key.from != h.key.to
      && Leads(h.key.to, e)
    }

    ghost predicate Ok(moves: map<Key, seq<Mover>>, home: map<nat, Home>) {
      && Sized()
      && (forall e <- home :: e < size && Leaving(moves, e, home[e]))
      && (forall e | 0 <= e < size && e !in home :: Resting(e))
    }
  }

  /** Every listed move is at home, for key k from position i on. */
  ghost predicate Listed(moves: map<Key, seq<Mover>>, home: map<nat, Home>, k: Key, i: nat) {
    && (forall q <- moves, j | (if q == k then i else 0) <= j < |moves[q]| ::
          moves[q][j].entity in home && home[moves[q][j].entity] == Home(q, j))
    && forall e <- home | home[e].key == k :: i <= home[e].at
  }

  /** No key is singled out. */
  const NO_KEY: Key := Key(0, 0)

  lemma AnyKey(moves: map<Key, seq<Mover>>, home: map<nat, Home>, k: Key, q: Key)
    requires Listed(moves, home, k, 0)
    ensures Listed(moves, home, q, 0)
  {
  }

  /** A new entity without components or commands. */
  lemma CreateWorld(w: World, w': World, moves: map<Key, seq<Mover>>)
    requires w.Ok(moves, map[]) && w'.Sized() && w'.size == w.size + 1 && w'.components == w.components
    requires forall e | 0 <= e < w.size ::
               w'.rows[e] == w.rows[e] && w'.records[e] == w.records[e] && w'.spec[e] == w.spec[e]
    requires 0 in w.components && w.components[0] == [] && Upper(w'.rows[w.size]) == 0
    requires w'.records[w.size] == {} && w'.spec[w.size] == {} && w.known <= w'.known
    ensures w'.Ok(moves, map[])
  {
    forall e | 0 <= e < w'.size
      ensures w'.Resting(e)
    {
      if e < w.size {
        assert w.Resting(e);
      }
    }
  }

  /** Recording a command for one entity. */
  lemma RecordWorld(w: World, moves: map<Key, seq<Mover>>, e: nat, kind: CommandType, c: ComponentID)
    requires w.Ok(moves, map[]) && e < w.size && c in w.known
    ensures Upper(w.rows[e]) in w.components
    ensures var has := c in Elements(w.components[Upper(w.rows[e])]);
      w.(records := w.records[e := Record(e, has, w.records[e], kind, c)],
         spec := w.spec[e := Apply(e, w.spec[e], kind, c)]).Ok(moves, map[])
  {
    assert w.Resting(e);
    var has := Elements(w.components[Upper(w.rows[e])]);
    RecordStep(e, has, w.records[e], w.spec[e], w.known, kind, c);
    var w' := w.(records := w.records[e := Record(e, c in has, w.records[e], kind, c)],
                 spec := w.spec[e := Apply(e, w.spec[e], kind, c)]);
    forall x | 0 <= x < w.size
      ensures w'.Resting(x)
    {
      assert w.Resting(x);
    }
  }

  /** New archetypes change nothing for the entities. */
  lemma GrowWorld(w: World, components: map<ArchetypeID, seq<ComponentID>>, moves: map<Key, seq<Mover>>, home: map<nat, Home>)
    requires w.Ok(moves, home) && forall n <- w.components :: n in components && components[n] == w.components[n]
    ensures w.(components := components).Ok(moves, home)
  {
    var w' := w.(components := components);
    forall e | 0 <= e < w.size && e !in home
      ensures w'.Resting(e)
    {
      assert w.Resting(e);
    }
    forall e <- home
      ensures w'.Leaving(moves, e, home[e])
    {
      assert w.Leaving(moves, e, home[e]);
    }
  }

  function MovesAt(moves: map<Key, seq<Mover>>, k: Key): seq<Mover> {
    if k in moves then moves[k] else []
  }

  /** Listing the move of an entity with pending commands. It never leads back to its own archetype. */
  lemma ListMove(w: World, moves: map<Key, seq<Mover>>, home: map<nat, Home>, e: nat, k: Key, r: nat)
    requires w.Ok(moves, home) && e < w.size && e !in home && w.records[e] != {}
    requires Listed(moves, home, k, 0)
    requires k.from == Upper(w.rows[e]) && r == Lower(w.rows[e])
    requires k.to in w.components && Elements(w.components[k.to]) == w.spec[e]
    ensures k.from != k.to
    ensures var moves', home' := moves[k := MovesAt(moves, k) + [Mover(e, r)]], home[e := Home(k, |MovesAt(moves, k)|)];
      w.(records := w.records[e := {}]).Ok(moves', home') && Listed(moves', home', k, 0)
  {
    assert w.Resting(e);
    SettledIff(e, Elements(w.components[k.from]), w.records[e], w.spec[e], w.known);
    var moves', home' := moves[k := MovesAt(moves, k) + [Mover(e, r)]], home[e := Home(k, |MovesAt(moves, k)|)];
    var w' := w.(records := w.records[e := {}]);
    forall x <- home'
      ensures x < w.size && w'.Leaving(moves', x, home'[x])
    {
      if x != e {
        assert w.Leaving(moves, x, home[x]);
      }
    }
    forall x | 0 <= x < w.size && x !in home'
      ensures w'.Resting(x)
    {
      assert w.Resting(x);
    }
    forall q <- moves', j | 0 <= j < |moves'[q]|
      ensures moves'[q][j].entity in home' && home'[moves'[q][j].entity] == Home(q, j)
    {
      if q != k || j < |MovesAt(moves, k)| {
        assert moves[q][j].entity in home && home[moves[q][j].entity] == Home(q, j);
      }
    }
  }

  /** Carrying out the i-th move of pair k: the entity comes to rest, and all other moves stay as they were listed. */
  lemma FinishMove(w: World, moves: map<Key, seq<Mover>>, home: map<nat, Home>, k: Key, i: nat, r: nat)
    requires w.Ok(moves, home) && Listed(moves, home, k, i) && k in moves && i < |moves[k]| && r < TWO_32
    ensures var e := moves[k][i].entity;
      && e in home && e < w.size
      && w.(rows := w.rows[e := Pack(k.to, r)]).Ok(moves, home - {e}) && Listed(moves, home - {e}, k, i + 1)
  {
    var e := moves[k][i].entity;
    assert home[e] == Home(k, i);
    var home', w' := home - {e}, w.(rows := w.rows[e := Pack(k.to, r)]);
    assert w.Leaving(moves, e, home[e]);
    Unpack(k.to, r);
    forall x <- home'
      ensures x < w.size && w'.Leaving(moves, x, home'[x])
      ensures home'[x].key == k ==> i + 1 <= home'[x].at
    {
      assert w.Leaving(moves, x, home[x]);
    }
    forall x | 0 <= x < w.size && x !in home'
      ensures w'.Resting(x)
    {
      if x != e {
        assert w.Resting(x);
      }
    }
    forall q <- moves, j | (if q == k then i + 1 else 0) <= j < |moves[q]|
      ensures moves[q][j].entity in home' && home'[moves[q][j].entity] == Home(q, j)
    {
      assert home[moves[q][j].entity] == Home(q, j);
    }
  }

  /** When all moves of a pair are carried out, its list is emptied. */
  lemma ClearKey(w: World, moves: map<Key, seq<Mover>>, home: map<nat, Home>, k: Key, next: Key)
    requires w.Ok(moves, home) && k in moves && Listed(moves, home, k, |moves[k]|)
    ensures w.Ok(moves[k := []], home) && Listed(moves[k := []], home, next, 0)
  {
    var moves' := moves[k := []];
    forall e <- home
      ensures e < w.size && w.Leaving(moves', e, home[e])
    {
      assert w.Leaving(moves, e, home[e]);
    }
  }

  lemma HomesListed(w: World, moves: map<Key, seq<Mover>>, home: map<nat, Home>)
    requires w.Ok(moves, home)
    ensures forall e <- home :: MovesAt(moves, home[e].key) != []
  {
    forall e <- home
      ensures MovesAt(moves, home[e].key) != []
    {
      assert w.Leaving(moves, e, home[e]);
    }
  }

  /** Without listed moves, every entity is at rest. */
  lemma AllCleared(w: World, moves: map<Key, seq<Mover>>, home: map<nat, Home>)
    requires w.Ok(moves, home) && forall q <- moves :: moves[q] == []
    ensures home == map[]
  {
    HomesListed(w, moves, home);
    assert forall q: Key :: MovesAt(moves, q) == [];
    assert home.Keys == {};
  }
}
