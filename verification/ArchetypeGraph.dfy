/**
 The archetype graph: a node for every component list met so far, found by list, by component, or over an edge that adds
 or removes one component. Nodes are held by id in maps, one map per field of the source's node.
 */
module ArchetypeGraph {
  import opened Basics
  import opened Commands
  import opened Entities
  import opened Ordered
  import opened RowTables

  /** What the graph uses of a component: pairs take two columns, and a column exists only for data. */
  datatype ComponentLayout = ComponentLayout(isPair: bool, hasData: bool, hasSecondData: bool)

  /** The nodes behind one component: the archetype with it added, and the one with it removed. */
  datatype Edge = Edge(add: Option<ArchetypeID>, remove: Option<ArchetypeID>)

  const NO_EDGE: Edge := Edge(None, None)

  // ----- Columns and slots -----

  function Width(layout: ComponentLayout): nat { if layout.isPair then 2 else 1 }

  /** Every listed component has a layout. */
  predicate Known(coms: seq<ComponentID>, layouts: map<ComponentID, ComponentLayout>) {
    forall c <- coms :: c in layouts
  }

  /** How many columns a list takes. */
  function TotalWidth(coms: seq<ComponentID>, layouts: map<ComponentID, ComponentLayout>): (w: nat)
    requires Known(coms, layouts)
  {
    if coms == [] then 0 else TotalWidth(coms[..|coms| - 1], layouts) + Width(layouts[coms[|coms| - 1]])
  }

  /** The first column of component c: as many columns as the components before it take. */
  function SlotOf(coms: seq<ComponentID>, layouts: map<ComponentID, ComponentLayout>, c: ComponentID): (s: nat)
    requires Known(coms, layouts)
  {
    if coms == [] then 0
    else if coms[|coms| - 1] == c then TotalWidth(coms[..|coms| - 1], layouts)
    else SlotOf(coms[..|coms| - 1], layouts, c)
  }

  function ColumnsOf(layout: ComponentLayout): (c: seq<Option<nat>>)
    ensures |c| == Width(layout)
  {
    [if layout.hasData then Some(0) else None] +
    if layout.isPair then [if layout.hasSecondData then Some(0) else None] else []
  }

  /** The empty table of an archetype. */
  function NewTable(coms: seq<ComponentID>, layouts: map<ComponentID, ComponentLayout>): (t: Table)
    requires Known(coms, layouts)
    ensures t.entityIdx == [] && t.freeRows == [] && ColumnsAhead(t, 0)
    ensures |t.columns| == TotalWidth(coms, layouts)
  {
    Table([], [], NewColumns(coms, layouts))
  }

  function NewColumns(coms: seq<ComponentID>, layouts: map<ComponentID, ComponentLayout>): (c: seq<Option<nat>>)
    requires Known(coms, layouts)
    ensures |c| == TotalWidth(coms, layouts)
    ensures forall k | 0 <= k < |c| :: c[k].Some? ==> c[k].value == 0
  {
    if coms == [] then [] else NewColumns(coms[..|coms| - 1], layouts) + ColumnsOf(layouts[coms[|coms| - 1]])
  }

  /** Component c has a column for each part of it that has data, and no column for a part without data. */
  predicate ColumnOf(t: Table, coms: seq<ComponentID>, layouts: map<ComponentID, ComponentLayout>, c: ComponentID)
    requires Known(coms, layouts) && c in coms
  {
    var slot, layout := SlotOf(coms, layouts, c), layouts[c];
    && slot + (if layout.isPair then 1 else 0) < |t.columns|
    && (t.columns[slot].Some? <==> layout.hasData)
    && (layout.isPair ==> (t.columns[slot + 1].Some? <==> layout.hasSecondData))
  }

  /** The table has the columns of these components and no more. */
  ghost predicate ColumnsFor(t: Table, coms: seq<ComponentID>, layouts: map<ComponentID, ComponentLayout>) {
    Known(coms, layouts) && |t.columns| == TotalWidth(coms, layouts) && forall c <- coms :: ColumnOf(t, coms, layouts, c)
  }

  /** The table of a new archetype has a column for just the data of its components. */
  lemma {:induction false} NewTableColumns(coms: seq<ComponentID>, layouts: map<ComponentID, ComponentLayout>)
    requires Known(coms, layouts) && forall i, j | 0 <= i < j < |coms| :: coms[i] != coms[j]
    ensures ColumnsFor(NewTable(coms, layouts), coms, layouts)
  {
    if coms != [] {
      var init, last := coms[..|coms| - 1], coms[|coms| - 1];
      NewTableColumns(init, layouts);
      var t, t' := NewTable(init, layouts), NewTable(coms, layouts);
      assert last in coms;
      forall c <- coms
        ensures ColumnOf(t', coms, layouts, c)
      {
        if c != last {
          assert c in init;
          assert ColumnOf(t, init, layouts, c);
        }
      }
    }
  }

  /** Different components have different columns. */
  lemma {:induction false} SlotsApart(coms: seq<ComponentID>, layouts: map<ComponentID, ComponentLayout>, c: ComponentID, d: ComponentID)
    requires Known(coms, layouts) && c in coms && d in coms && c != d
    ensures SlotOf(coms, layouts, c) + Width(layouts[c]) <= SlotOf(coms, layouts, d)
            || SlotOf(coms, layouts, d) + Width(layouts[d]) <= SlotOf(coms, layouts, c)
  {
    var init, last := coms[..|coms| - 1], coms[|coms| - 1];
    assert forall x <- coms :: x in init || x == last;
    if c == last {
      SlotInside(init, layouts, d);
    } else if d == last {
      SlotInside(init, layouts, c);
    } else {
      SlotsApart(init, layouts, c, d);
    }
  }

  lemma {:induction false} SlotInside(coms: seq<ComponentID>, layouts: map<ComponentID, ComponentLayout>, c: ComponentID)
    requires Known(coms, layouts) && c in coms
    ensures SlotOf(coms, layouts, c) + Width(layouts[c]) <= TotalWidth(coms, layouts)
  {
    var init, last := coms[..|coms| - 1], coms[|coms| - 1];
    assert forall x <- coms :: x in init || x == last;
    if c != last {
      SlotInside(init, layouts, c);
    }
  }

  // ----- The invariant, over values -----

  /** Ids up to the counter; lists ascending; every list but the root's is registered for its own node and no other. */
  ghost predicate NodesOk(counter: nat, components: map<ArchetypeID, seq<ComponentID>>,
                          listToId: map<seq<ComponentID>, ArchetypeID>, layouts: map<ComponentID, ComponentLayout>) {
    && 0 in components && components[0] == []
    && (forall id <- components :: id <= counter && Ascending(components[id]) && Known(components[id], layouts))
    && (forall id <- components :: id != 0 ==> components[id] in listToId && listToId[components[id]] == id)
    && (forall l <- listToId :: listToId[l] in components && listToId[l] != 0 && components[listToId[l]] == l)
  }

  /** An edge leads to the node with the component added, or with it removed. */
  ghost predicate EdgeOk(components: map<ArchetypeID, seq<ComponentID>>, id: ArchetypeID, c: ComponentID, e: Edge)
    requires id in components
  {
    && (e.add.Some? ==> e.add.value in components && c !in components[id]
                        && Elements(components[e.add.value]) == Elements(components[id]) + {c})
    && (e.remove.Some? ==> e.remove.value in components && c in components[id]
                           && Elements(components[e.remove.value]) == Elements(components[id]) - {c})
  }

  ghost predicate EdgesOk(components: map<ArchetypeID, seq<ComponentID>>, edges: map<ArchetypeID, map<ComponentID, Edge>>) {
    && edges.Keys == components.Keys
    && forall id <- components, c <- edges[id] :: EdgeOk(components, id, c, edges[id][c])
  }

  /** Component c is in archetype id, at this column. */
  predicate At(position: map<ComponentID, map<ArchetypeID, nat>>, c: ComponentID, id: ArchetypeID) {
    c in position && id in position[c]
  }

  /** The component index lists just the archetypes that have the component, each with the component's column. */
  ghost predicate PositionOk(components: map<ArchetypeID, seq<ComponentID>>, position: map<ComponentID, map<ArchetypeID, nat>>,
                             layouts: map<ComponentID, ComponentLayout>) {
    && (forall c: ComponentID, id: ArchetypeID :: At(position, c, id) <==> id in components && c in components[id])
    && (forall id <- components :: Known(components[id], layouts))
    && (forall c: ComponentID, id: ArchetypeID | At(position, c, id) :: position[c][id] == SlotOf(components[id], layouts, c))
  }

  /** Every archetype has a table with a column for just the data of its components. */
  ghost predicate TablesOk(components: map<ArchetypeID, seq<ComponentID>>, data: map<ArchetypeID, Table>,
                           layouts: map<ComponentID, ComponentLayout>) {
    data.Keys == components.Keys && forall id <- components :: ColumnsFor(data[id], components[id], layouts)
  }

  // ----- Keeping the invariant -----

  lemma AddNode(counter: nat, components: map<ArchetypeID, seq<ComponentID>>, listToId: map<seq<ComponentID>, ArchetypeID>,
                layouts: map<ComponentID, ComponentLayout>, coms: seq<ComponentID>)
    requires NodesOk(counter, components, listToId, layouts)
    requires coms !in listToId && Ascending(coms) && Known(coms, layouts)
    ensures counter + 1 !in components
    ensures NodesOk(counter + 1, components[counter + 1 := coms], listToId[coms := counter + 1], layouts)
  {
    assert counter + 1 !in components;
    forall id <- components | id != 0
      ensures components[id] != coms
    {
    }
  }

  lemma AddNodeEdges(components: map<ArchetypeID, seq<ComponentID>>, edges: map<ArchetypeID, map<ComponentID, Edge>>,
                     id: ArchetypeID, coms: seq<ComponentID>)
    requires EdgesOk(components, edges) && id !in components
    ensures EdgesOk(components[id := coms], edges[id := map[]])
  {
    var components', edges' := components[id := coms], edges[id := map[]];
    forall n <- components', c <- edges'[n]
      ensures EdgeOk(components', n, c, edges'[n][c])
    {
      assert EdgeOk(components, n, c, edges[n][c]);
    }
  }

  function EdgeAt(edges: map<ArchetypeID, map<ComponentID, Edge>>, id: ArchetypeID, c: ComponentID): Edge
    requires id in edges
  {
    if c in edges[id] then edges[id][c] else NO_EDGE
  }

  /** Setting one edge that leads to the right node. */
  lemma SetEdge(components: map<ArchetypeID, seq<ComponentID>>, edges: map<ArchetypeID, map<ComponentID, Edge>>,
                id: ArchetypeID, c: ComponentID, e: Edge)
    requires EdgesOk(components, edges) && id in components && EdgeOk(components, id, c, e)
    ensures EdgesOk(components, edges[id := With(edges[id], c, e)])
  {
    var edges' := edges[id := With(edges[id], c, e)];
    forall n <- components, d <- edges'[n]
      ensures EdgeOk(components, n, d, edges'[n][d])
    {
      if n != id || d != c {
        assert EdgeOk(components, n, d, edges[n][d]);
      }
    }
  }

  /** small -add c-> big, big -remove c-> small. */
  function Link(edges: map<ArchetypeID, map<ComponentID, Edge>>, small: ArchetypeID, big: ArchetypeID, c: ComponentID)
    : (r: map<ArchetypeID, map<ComponentID, Edge>>)
    requires small in edges && big in edges
  {
    var half := edges[small := With(edges[small], c, EdgeAt(edges, small, c).(add := Some(big)))];
    half[big := With(half[big], c, EdgeAt(half, big, c).(remove := Some(small)))]
  }

  lemma LinkOk(components: map<ArchetypeID, seq<ComponentID>>, edges: map<ArchetypeID, map<ComponentID, Edge>>,
               small: ArchetypeID, big: ArchetypeID, c: ComponentID)
    requires EdgesOk(components, edges) && small in components && big in components
    requires c !in Elements(components[small]) && Elements(components[big]) == Elements(components[small]) + {c}
    ensures small in edges && big in edges && EdgesOk(components, Link(edges, small, big, c))
    ensures EdgeAt(Link(edges, small, big, c), small, c).add == Some(big)
    ensures EdgeAt(Link(edges, small, big, c), big, c).remove == Some(small)
  {
    var e := EdgeAt(edges, small, c).(add := Some(big));
    var half := edges[small := With(edges[small], c, e)];
    assert c in Elements(components[big]);
    assert EdgeOk(components, small, c, EdgeAt(edges, small, c));
    SetEdge(components, edges, small, c, e);
    assert EdgeOk(components, big, c, EdgeAt(half, big, c));
    SetEdge(components, half, big, c, EdgeAt(half, big, c).(remove := Some(small)));
  }

  lemma ElementsBelow(rest: seq<ComponentID>, s: seq<ComponentID>, c: ComponentID, x: ComponentID)
    requires Elements(rest) == Elements(s) - {c} && AllBelow(s, x)
    ensures AllBelow(rest, x)
  {
    hide Ascending;
    forall y <- rest
      ensures y < x
    {
      assert y in Elements(rest);
      assert y in Elements(s);
    }
  }

  lemma WithoutNext(coms: seq<ComponentID>, i: nat, rest: seq<ComponentID>, c: ComponentID)
    requires Ascending(coms) && i < |coms|
    requires Ascending(rest) && Elements(rest) == Elements(coms[..i]) - {c}
    ensures var rest' := if coms[i] != c then rest + [coms[i]] else rest;
      Ascending(rest') && Elements(rest') == Elements(coms[..i + 1]) - {c}
  {
    hide Elements, Ascending, AllBelow;
    assert coms[..i + 1] == coms[..i] + [coms[i]];
    Append(coms[..i], coms[i]);
    AscendingPrefix(coms, i);
    ElementsBelow(rest, coms[..i], c, coms[i]);
    Append(rest, coms[i]);
  }

  /** The list without c, as the filtering loop builds it. */
  method Without(coms: seq<ComponentID>, c: ComponentID) returns (rest: seq<ComponentID>)
    requires Ascending(coms)
    ensures Ascending(rest) && Elements(rest) == Elements(coms) - {c}
  {
    rest := [];
    for i := 0 to |coms|
      invariant Ascending(rest) && Elements(rest) == Elements(coms[..i]) - {c}
    {
      WithoutNext(coms, i, rest, c);
      if coms[i] != c {
        rest := rest + [coms[i]];
      }
    }
    assert coms[..|coms|] == coms;
  }

  /** The list with c appended and sorted in. */
  lemma WithSorted(coms: seq<ComponentID>, c: ComponentID)
    requires Ascending(coms) && c !in coms
    ensures Ascending(Sort(coms + [c])) && Elements(Sort(coms + [c])) == Elements(coms) + {c}
  {
    AscendingDistinct(coms);
    Append(coms, c);
    SortSorted(coms + [c]);
  }

  lemma KnownElements(a: seq<ComponentID>, b: seq<ComponentID>, layouts: map<ComponentID, ComponentLayout>, c: ComponentID)
    requires Known(a, layouts) && c in layouts && Elements(b) <= Elements(a) + {c}
    ensures Known(b, layouts)
  {
    forall x <- b
      ensures x in layouts
    {
      assert x in Elements(b);
    }
  }

  /** The component index while the components of a new list are being entered: `done` of them so far. */
  ghost predicate Entering(position: map<ComponentID, map<ArchetypeID, nat>>, position': map<ComponentID, map<ArchetypeID, nat>>,
                           id: ArchetypeID, done: seq<ComponentID>, layouts: map<ComponentID, ComponentLayout>) {
    && Known(done, layouts)
    && (forall c: ComponentID, n: ArchetypeID :: At(position', c, n) <==> At(position, c, n) || (n == id && c in done))
    && (forall c: ComponentID, n: ArchetypeID | At(position', c, n) ::
          position'[c][n] == if n == id then SlotOf(done, layouts, c) else position[c][n])
  }

  /** position[c][id] = slot, where position[c] may not be there yet. */
  function EnterAt(position: map<ComponentID, map<ArchetypeID, nat>>, c: ComponentID, id: ArchetypeID, slot: nat)
    : (r: map<ComponentID, map<ArchetypeID, nat>>)
    ensures forall d: ComponentID, n: ArchetypeID :: At(r, d, n) <==> At(position, d, n) || (d == c && n == id)
    ensures At(r, c, id) && r[c][id] == slot
    ensures forall d: ComponentID, n: ArchetypeID | At(position, d, n) && (d != c || n != id) ::
              At(r, d, n) && r[d][n] == position[d][n]
  {
    position[c := With(if c in position then position[c] else map[], id, slot)]
  }

  lemma EnterOne(before: map<ComponentID, map<ArchetypeID, nat>>, prev: map<ComponentID, map<ArchetypeID, nat>>,
                 id: ArchetypeID, done: seq<ComponentID>, c: ComponentID, layouts: map<ComponentID, ComponentLayout>)
    requires Entering(before, prev, id, done, layouts) && c !in done && c in layouts
    requires forall d: ComponentID :: !At(before, d, id)
    ensures Entering(before, EnterAt(prev, c, id, TotalWidth(done, layouts)), id, done + [c], layouts)
  {
    var next, done' := EnterAt(prev, c, id, TotalWidth(done, layouts)), done + [c];
    assert done'[..|done|] == done;
    forall d: ComponentID, n: ArchetypeID
      ensures At(next, d, n) <==> At(before, d, n) || (n == id && d in done')
    {
      assert At(prev, d, n) <==> At(before, d, n) || (n == id && d in done);
    }
  }

  lemma Entered(components: map<ArchetypeID, seq<ComponentID>>, position: map<ComponentID, map<ArchetypeID, nat>>,
                position': map<ComponentID, map<ArchetypeID, nat>>, layouts: map<ComponentID, ComponentLayout>,
                id: ArchetypeID, coms: seq<ComponentID>)
    requires PositionOk(components, position, layouts) && id !in components
    requires Entering(position, position', id, coms, layouts)
    ensures PositionOk(components[id := coms], position', layouts)
  {
  }

  lemma EnterNone(components: map<ArchetypeID, seq<ComponentID>>, position: map<ComponentID, map<ArchetypeID, nat>>,
                  layouts: map<ComponentID, ComponentLayout>, id: ArchetypeID)
    requires PositionOk(components, position, layouts) && id !in components
    ensures Entering(position, position, id, [], layouts) && TotalWidth([], layouts) == 0
    ensures forall d: ComponentID :: !At(position, d, id)
  {
  }

  /** The step of the loop that enters component i of the list. */
  lemma EnterNext(before: map<ComponentID, map<ArchetypeID, nat>>, prev: map<ComponentID, map<ArchetypeID, nat>>,
                  id: ArchetypeID, coms: seq<ComponentID>, i: nat, layouts: map<ComponentID, ComponentLayout>)
    requires Known(coms, layouts) && i < |coms| && coms[i] !in coms[..i]
    requires Entering(before, prev, id, coms[..i], layouts)
    requires forall d: ComponentID :: !At(before, d, id)
    ensures Entering(before, EnterAt(prev, coms[i], id, TotalWidth(coms[..i], layouts)), id, coms[..i + 1], layouts)
    ensures TotalWidth(coms[..i + 1], layouts) == TotalWidth(coms[..i], layouts) + Width(layouts[coms[i]])
  {
    hide Entering, EnterAt, At;
    assert coms[..i + 1] == coms[..i] + [coms[i]];
    EnterOne(before, prev, id, coms[..i], coms[i], layouts);
    assert coms[..i + 1][..i] == coms[..i];
  }

  method EnterPositions(position: map<ComponentID, map<ArchetypeID, nat>>, ghost components: map<ArchetypeID, seq<ComponentID>>,
                        layouts: map<ComponentID, ComponentLayout>, id: ArchetypeID, coms: seq<ComponentID>)
    returns (entered: map<ComponentID, map<ArchetypeID, nat>>)
    requires PositionOk(components, position, layouts) && id !in components
    requires Ascending(coms) && Known(coms, layouts)
    ensures PositionOk(components[id := coms], entered, layouts)
  {
    hide Entering, PositionOk, TotalWidth, EnterAt, Ascending;
    EnterNone(components, position, layouts, id);
    AscendingDistinct(coms);
    entered := position;
    var slot := 0;
    for i := 0 to |coms|
      invariant Entering(position, entered, id, coms[..i], layouts)
      invariant slot == TotalWidth(coms[..i], layouts)
    {
      EnterNext(position, entered, id, coms, i, layouts);
      entered := EnterAt(entered, coms[i], id, slot);
      slot := slot + 1;
      if layouts[coms[i]].isPair {
        slot := slot + 1;
      }
    }
    assert coms[..|coms|] == coms;
    Entered(components, position, entered, layouts, id, coms);
  }

  ghost predicate GraphOk(counter: nat, components: map<ArchetypeID, seq<ComponentID>>,
                          edges: map<ArchetypeID, map<ComponentID, Edge>>, data: map<ArchetypeID, Table>,
                          listToId: map<seq<ComponentID>, ArchetypeID>, position: map<ComponentID, map<ArchetypeID, nat>>,
                          layouts: map<ComponentID, ComponentLayout>) {
    && data.Keys == components.Keys && TablesOk(components, data, layouts)
    && NodesOk(counter, components, listToId, layouts)
    && EdgesOk(components, edges)
    && PositionOk(components, position, layouts)
  }

  lemma FreshId(counter: nat, components: map<ArchetypeID, seq<ComponentID>>,
                edges: map<ArchetypeID, map<ComponentID, Edge>>, data: map<ArchetypeID, Table>,
                listToId: map<seq<ComponentID>, ArchetypeID>, position: map<ComponentID, map<ArchetypeID, nat>>,
                layouts: map<ComponentID, ComponentLayout>)
    requires GraphOk(counter, components, edges, data, listToId, position, layouts)
    ensures counter + 1 !in components && 0 in components && data.Keys == edges.Keys == components.Keys
  {
  }

  lemma AddToGraph(counter: nat, components: map<ArchetypeID, seq<ComponentID>>,
                   edges: map<ArchetypeID, map<ComponentID, Edge>>, data: map<ArchetypeID, Table>,
                   listToId: map<seq<ComponentID>, ArchetypeID>, position: map<ComponentID, map<ArchetypeID, nat>>,
                   layouts: map<ComponentID, ComponentLayout>, coms: seq<ComponentID>, entered: map<ComponentID, map<ArchetypeID, nat>>)
    requires GraphOk(counter, components, edges, data, listToId, position, layouts)
    requires coms !in listToId && Ascending(coms) && Known(coms, layouts)
    requires PositionOk(components[counter + 1 := coms], entered, layouts)
    ensures counter + 1 !in components
    ensures GraphOk(counter + 1, components[counter + 1 := coms], edges[counter + 1 := map[]],
                    data[counter + 1 := NewTable(coms, layouts)], listToId[coms := counter + 1], entered, layouts)
  {
    hide ColumnsFor, PositionOk, Ascending, NewTable;
    AscendingDistinct(coms);
    NewTableColumns(coms, layouts);
    AddNode(counter, components, listToId, layouts, coms);
    AddNodeEdges(components, edges, counter + 1, coms);
  }

  /** Old nodes and their tables are as they were; new nodes have empty tables. */
  ghost predicate Grown(components: map<ArchetypeID, seq<ComponentID>>, data: map<ArchetypeID, Table>,
                        components': map<ArchetypeID, seq<ComponentID>>, data': map<ArchetypeID, Table>) {
    && (forall n <- components :: n in components' && components'[n] == components[n])
    && (forall n <- data :: n in data' && data'[n] == data[n])
    && (forall n <- data' :: n in data
                             || (data'[n].entityIdx == [] && data'[n].freeRows == [] && ColumnsAhead(data'[n], 0)))
  }

  lemma GrownTwice(c: map<ArchetypeID, seq<ComponentID>>, d: map<ArchetypeID, Table>,
                   c': map<ArchetypeID, seq<ComponentID>>, d': map<ArchetypeID, Table>,
                   c'': map<ArchetypeID, seq<ComponentID>>, d'': map<ArchetypeID, Table>)
    requires Grown(c, d, c', d') && Grown(c', d', c'', d'')
    ensures Grown(c, d, c'', d'')
  {
  }

  lemma GrownSame(c: map<ArchetypeID, seq<ComponentID>>, d: map<ArchetypeID, Table>)
    ensures Grown(c, d, c, d)
  {
  }

  lemma GrownNew(c: map<ArchetypeID, seq<ComponentID>>, d: map<ArchetypeID, Table>, id: ArchetypeID,
                 coms: seq<ComponentID>, t: Table)
    requires c.Keys == d.Keys && id !in c && t.entityIdx == [] && t.freeRows == [] && ColumnsAhead(t, 0)
    ensures Grown(c, d, c[id := coms], d[id := t])
  {
    hide ColumnsAhead;
  }

  /** Two nodes with the same components are one node, the empty list aside. */
  lemma SameNode(counter: nat, components: map<ArchetypeID, seq<ComponentID>>, listToId: map<seq<ComponentID>, ArchetypeID>,
                 layouts: map<ComponentID, ComponentLayout>, a: ArchetypeID, b: ArchetypeID)
    requires NodesOk(counter, components, listToId, layouts) && a in components && b in components
    requires Elements(components[a]) == Elements(components[b]) != {}
    ensures a == b
  {
    SameList(components[a], components[b]);
    EmptyElements(components[a]);
  }

  // ----- Registering components -----

  lemma {:induction false} SameWidths(coms: seq<ComponentID>, layouts: map<ComponentID, ComponentLayout>,
                                      layouts': map<ComponentID, ComponentLayout>, c: ComponentID)
    requires Known(coms, layouts) && forall x <- layouts :: x in layouts' && layouts'[x] == layouts[x]
    ensures Known(coms, layouts')
    ensures TotalWidth(coms, layouts') == TotalWidth(coms, layouts) && SlotOf(coms, layouts', c) == SlotOf(coms, layouts, c)
  {
    if coms != [] {
      assert coms[|coms| - 1] in layouts;
      SameWidths(coms[..|coms| - 1], layouts, layouts', c);
    }
  }

  lemma SameColumnsFor(t: Table, coms: seq<ComponentID>, layouts: map<ComponentID, ComponentLayout>,
                       layouts': map<ComponentID, ComponentLayout>)
    requires ColumnsFor(t, coms, layouts) && forall x <- layouts :: x in layouts' && layouts'[x] == layouts[x]
    ensures ColumnsFor(t, coms, layouts')
  {
    hide SlotOf, TotalWidth;
    SameWidths(coms, layouts, layouts', 0);
    forall c <- coms
      ensures ColumnOf(t, coms, layouts', c)
    {
      assert ColumnOf(t, coms, layouts, c);
      SameWidths(coms, layouts, layouts', c);
    }
  }

  /** Other lengths of the columns keep the tables. */
  lemma SameTables(components: map<ArchetypeID, seq<ComponentID>>, data: map<ArchetypeID, Table>, data': map<ArchetypeID, Table>,
                   layouts: map<ComponentID, ComponentLayout>)
    requires TablesOk(components, data, layouts) && AllSameColumns(data, data')
    ensures TablesOk(components, data', layouts)
  {
    hide SlotOf, TotalWidth;
    forall id <- components
      ensures ColumnsFor(data'[id], components[id], layouts)
    {
      assert SameColumns(data[id], data'[id]);
      forall c <- components[id]
        ensures ColumnOf(data'[id], components[id], layouts, c)
      {
        assert ColumnOf(data[id], components[id], layouts, c);
      }
    }
  }

  lemma MoreLayouts(counter: nat, components: map<ArchetypeID, seq<ComponentID>>, edges: map<ArchetypeID, map<ComponentID, Edge>>,
                    data: map<ArchetypeID, Table>, listToId: map<seq<ComponentID>, ArchetypeID>,
                    position: map<ComponentID, map<ArchetypeID, nat>>,
                    layouts: map<ComponentID, ComponentLayout>, layouts': map<ComponentID, ComponentLayout>)
    requires GraphOk(counter, components, edges, data, listToId, position, layouts)
    requires forall x <- layouts :: x in layouts' && layouts'[x] == layouts[x]
    ensures GraphOk(counter, components, edges, data, listToId, position, layouts')
  {
    hide ColumnsFor, Ascending, SlotOf;
    forall id <- components
      ensures ColumnsFor(data[id], components[id], layouts')
    {
      SameColumnsFor(data[id], components[id], layouts, layouts');
    }
    forall c: ComponentID, id: ArchetypeID | At(position, c, id)
      ensures position[c][id] == SlotOf(components[id], layouts', c)
    {
      SameWidths(components[id], layouts, layouts', c);
    }
  }

  class Graph {
    var counter: nat
    var components: map<ArchetypeID, seq<ComponentID>>
    var edges: map<ArchetypeID, map<ComponentID, Edge>>
    var data: map<ArchetypeID, Table>
    var listToId: map<seq<ComponentID>, ArchetypeID>
    var position: map<ComponentID, map<ArchetypeID, nat>>
    var layouts: map<ComponentID, ComponentLayout>

    ghost predicate Valid()
      reads this
    {
      GraphOk(counter, components, edges, data, listToId, position, layouts)
    }

    lemma NodeFacts(node: ArchetypeID)
      requires Valid() && node in components
      ensures Ascending(components[node]) && Known(components[node], layouts)
    {
    }

    lemma EdgeFacts(node: ArchetypeID, c: ComponentID)
      requires Valid() && node in components
      ensures node in edges && EdgesOk(components, edges)
      ensures EdgeOk(components, node, c, EdgeAt(edges, node, c))
    {
    }

    lemma ListFacts(coms: seq<ComponentID>)
      requires Valid() && coms in listToId
      ensures listToId[coms] in components && components[listToId[coms]] == coms
    {
    }

    /** The component index leads to the columns of a component: one for each part of it that has data. */
    lemma ColumnFacts(node: ArchetypeID, c: ComponentID)
      requires Valid() && node in components && c in components[node]
      ensures node in data && c in layouts && At(position, c, node)
      ensures var slot, layout, columns := position[c][node], layouts[c], data[node].columns;
        && slot + (if layout.isPair then 1 else 0) < |columns|
        && (columns[slot].Some? <==> layout.hasData)
        && (layout.isPair ==> (columns[slot + 1].Some? <==> layout.hasSecondData))
    {
      hide NodesOk, EdgesOk, SlotOf, TotalWidth;
      assert At(position, c, node);
      assert ColumnsFor(data[node], components[node], layouts);
      assert ColumnOf(data[node], components[node], layouts, c);
    }

    /** No column belongs to two components. */
    lemma ColumnsApart(node: ArchetypeID, c: ComponentID, d: ComponentID)
      requires Valid() && node in components && c in components[node] && d in components[node] && c != d
      ensures c in layouts && d in layouts && At(position, c, node) && At(position, d, node)
      ensures var i, j := position[c][node], position[d][node];
        i + (if layouts[c].isPair then 1 else 0) < j || j + (if layouts[d].isPair then 1 else 0) < i
    {
      hide NodesOk, EdgesOk, TablesOk, SlotOf, TotalWidth;
      assert At(position, c, node) && At(position, d, node);
      SlotsApart(components[node], layouts, c, d);
    }

    lemma KeysFacts()
      requires Valid()
      ensures components.Keys == data.Keys
    {
    }

    lemma RootFacts()
      requires Valid()
      ensures 0 in components && components[0] == []
    {
    }

    constructor (layouts: map<ComponentID, ComponentLayout>)
      ensures Valid() && components == map[0 := []] && this.layouts == layouts
      ensures data == map[0 := Table([], [], [])]
    {
      counter, components, edges, data := 0, map[0 := []], map[0 := map[]], map[0 := Table([], [], [])];
      listToId, position := map[], map[];
      this.layouts := layouts;
    }

    /** A new node with the next id and an empty table; its components are entered in the index, a pair taking two columns. */
    method CreateNode(coms: seq<ComponentID>) returns (id: ArchetypeID)
      requires Valid() && coms !in listToId && Ascending(coms) && Known(coms, layouts)
      modifies this`counter, this`components, this`edges, this`data, this`listToId, this`position
      ensures Valid() && id !in old(components)
      ensures components == old(components)[id := coms] && data == old(data)[id := NewTable(coms, layouts)]
    {
      hide TablesOk, NodesOk, EdgesOk, PositionOk, Known, Ascending;
      id := counter + 1;
      FreshId(counter, components, edges, data, listToId, position, layouts);
      var entered := EnterPositions(position, components, layouts, id, coms);
      AddToGraph(counter, components, edges, data, listToId, position, layouts, coms, entered);
      counter, components, edges, data, listToId, position :=
        id, components[id := coms], edges[id := map[]], data[id := NewTable(coms, layouts)], listToId[coms := id], entered;
    }

    /** The node with this component list, made if there is none. */
    method GetOrCreate(coms: seq<ComponentID>) returns (id: ArchetypeID)
      requires Valid() && Ascending(coms) && Known(coms, layouts)
      modifies this`counter, this`components, this`edges, this`data, this`listToId, this`position
      ensures Valid() && id in components && components[id] == coms && Grown(old(components), old(data), components, data)
      ensures coms in old(listToId) ==> components == old(components) && id == old(listToId)[coms]
    {
      hide TablesOk, NodesOk, EdgesOk, PositionOk, Known, Ascending, Grown, NewTable;
      if coms in listToId {
        ListFacts(coms);
        GrownSame(components, data);
        return listToId[coms];
      }
      ghost var c, d := components, data;
      KeysFacts();
      id := CreateNode(coms);
      GrownNew(c, d, id, coms, NewTable(coms, layouts));
    }

    /** The node with component c added: over the cached edge, or found by list and linked both ways. */
    method EdgeAdd(node: ArchetypeID, c: ComponentID) returns (id: ArchetypeID)
      requires Valid() && node in components && c !in components[node] && c in layouts
      modifies this`counter, this`components, this`edges, this`data, this`listToId, this`position
      ensures Valid() && id in components && Grown(old(components), old(data), components, data)
      ensures Elements(components[id]) == Elements(old(components)[node]) + {c}
      ensures EdgeAt(edges, node, c).add == Some(id)
      ensures EdgeAt(old(edges), node, c).add.None? ==> EdgeAt(edges, id, c).remove == Some(node)
    {
      hide TablesOk, NodesOk, EdgesOk, PositionOk, Known, Ascending, Sort, Link;
      NodeFacts(node);
      EdgeFacts(node, c);
      if c in edges[node] && edges[node][c].add.Some? {
        return edges[node][c].add.value;
      }
      var coms := Sort(components[node] + [c]);
      WithSorted(components[node], c);
      KnownElements(components[node], coms, layouts, c);
      id := GetOrCreate(coms);
      LinkOk(components, edges, node, id, c);
      edges := Link(edges, node, id, c);
    }

    /** The node with component c removed: the root from an empty list, or over the cached edge, or found and linked. */
    method EdgeRemove(node: ArchetypeID, c: ComponentID) returns (id: ArchetypeID)
      requires Valid() && node in components && (c in components[node] || components[node] == [])
      modifies this`counter, this`components, this`edges, this`data, this`listToId, this`position
      ensures Valid() && id in components && Grown(old(components), old(data), components, data)
      ensures Elements(components[id]) == Elements(old(components)[node]) - {c}
      ensures old(components)[node] == [] ==> id == 0
      ensures old(components)[node] != [] ==> EdgeAt(edges, node, c).remove == Some(id)
      ensures old(components)[node] != [] && EdgeAt(old(edges), node, c).remove.None? ==> EdgeAt(edges, id, c).add == Some(node)
    {
      hide TablesOk, NodesOk, EdgesOk, PositionOk, Known, Ascending, Sort, Link;
      RootFacts();
      NodeFacts(node);
      EdgeFacts(node, c);
      if components[node] == [] {
        return 0;
      }
      if c in edges[node] && edges[node][c].remove.Some? {
        return edges[node][c].remove.value;
      }
      var rest := Without(components[node], c);
      SortAscending(rest);
      KnownElements(components[node], rest, layouts, c);
      id := GetOrCreate(Sort(rest));
      LinkOk(components, edges, id, node, c);
      edges := Link(edges, id, node, c);
    }

    /** Whether a row word names an archetype with component c, by the component index. */
    predicate HasComponent(word: nat, c: ComponentID)
      reads this
      ensures Valid() && Upper(word) in components ==>
                (HasComponent(word, c) <==> c in Elements(components[Upper(word)]))
    {
      At(position, c, Upper(word))
    }

    /** The archetype that the pending commands of an entity lead to, in whatever order they are carried out. */
    method Walk(node: ArchetypeID, rec: set<Command>, ghost e: nat, ghost want: set<ComponentID>) returns (id: ArchetypeID)
      requires Valid() && node in components && RecordOk(e, Elements(components[node]), rec, want, layouts.Keys)
      modifies this`counter, this`components, this`edges, this`data, this`listToId, this`position
      ensures Valid() && id in components && Grown(old(components), old(data), components, data)
      ensures Elements(components[id]) == want
    {
      hide GraphOk, NodesOk, EdgesOk, PositionOk, Known, Ascending, Grown, RecordOk, EdgeAt;
      GrownSame(components, data);
      id := node;
      var rest := rec;
      while rest != {}
        invariant Valid() && id in components && Grown(old(components), old(data), components, data)
        invariant RecordOk(e, Elements(components[id]), rest, want, layouts.Keys)
        decreases |rest|
      {
        var cmd :| cmd in rest;
        WalkStep(e, Elements(components[id]), rest, want, layouts.Keys, cmd);
        ghost var c, d := components, data;
        if cmd.kind == AddComponent {
          id := EdgeAdd(id, cmd.com);
        } else {
          id := EdgeRemove(id, cmd.com);
        }
        GrownTwice(old(components), old(data), c, d, components, data);
        rest := rest - {cmd};
      }
      SettledIff(e, Elements(components[id]), rest, want, layouts.Keys);
    }

    /** The tables after entities moved: they have the columns they had. */
    method SetData(data: map<ArchetypeID, Table>)
      requires Valid() && AllSameColumns(this.data, data)
      modifies this`data
      ensures Valid() && this.data == data
    {
      hide TablesOk, NodesOk, EdgesOk, PositionOk, SameColumns;
      SameTables(components, this.data, data, layouts);
      this.data := data;
    }

    method Register(c: ComponentID, layout: ComponentLayout)
      requires Valid() && c !in layouts
      modifies this`layouts
      ensures Valid() && layouts == old(layouts)[c := layout]
    {
      MoreLayouts(counter, components, edges, data, listToId, position, layouts, layouts[c := layout]);
      layouts := layouts[c := layout];
    }
  }
}
