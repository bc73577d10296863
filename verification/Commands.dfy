/** Pending component commands of an entity, against commands applied at once to a plain set. */
module Commands {
  import opened Entities

  // ----- The simple semantics -----

  /** One command, applied at once. An entity is never a component of itself. */
  function Apply(e: nat, s: set<ComponentID>, kind: CommandType, c: ComponentID): set<ComponentID> {
    match kind
    case AddComponent => if c == e then s else s + {c}
    case RemoveComponent => s - {c}
  }

  function ApplyList(e: nat, s: set<ComponentID>, kind: CommandType, coms: seq<ComponentID>): set<ComponentID> {
    if coms == [] then s else Apply(e, ApplyList(e, s, kind, coms[..|coms| - 1]), kind, coms[|coms| - 1])
  }

  /** Commands for the entities in turn. */
  function ApplyAll(sets: seq<set<ComponentID>>, kind: CommandType, es: seq<nat>, coms: seq<ComponentID>)
    : (r: seq<set<ComponentID>>)
    requires forall i | 0 <= i < |es| :: es[i] < |sets|
    ensures |r| == |sets|
  {
    if es == [] then sets
    else
      var before := ApplyAll(sets, kind, es[..|es| - 1], coms);
      var e := es[|es| - 1];
      before[e := ApplyList(e, before[e], kind, coms)]
  }

  /** The indices of the handles that answer among n entities, when none was ever removed. */
  function Live(handles: seq<EntityHandle>, n: nat): (r: seq<nat>)
    ensures forall i | 0 <= i < |r| :: r[i] < n
  {
    if handles == [] then []
    else
      var h := handles[|handles| - 1];
      Live(handles[..|handles| - 1], n) + if h.index < n && h.version == 0 then [h.index] else []
  }

  datatype Op =
    | Create(named: bool, flag: bv32)
    | Modify(kind: CommandType, handles: seq<EntityHandle>, coms: seq<ComponentID>)
    | Submit

  /** A component set per entity, and the registered components. */
  datatype Simple = Simple(sets: seq<set<ComponentID>>, known: set<ComponentID>)

  /** Every command acts at once; submitting does nothing. An unregistered component stops the whole operation. */
  function Step(s: Simple, op: Op): Simple {
    match op
    case Create(named, _) => Simple(s.sets + [{}], s.known + if named then {|s.sets|} else {})
    case Modify(kind, handles, coms) =>
      if forall c <- coms :: c in s.known then s.(sets := ApplyAll(s.sets, kind, Live(handles, |s.sets|), coms)) else s
    case Submit => s
  }

  function Steps(s: Simple, ops: seq<Op>): Simple {
    if ops == [] then s else Step(Steps(s, ops[..|ops| - 1]), ops[|ops| - 1])
  }

  function Creations(ops: seq<Op>): nat {
    if ops == [] then 0 else Creations(ops[..|ops| - 1]) + if ops[|ops| - 1].Create? then 1 else 0
  }

  /** The entities, numbered from n on, that are created with user flags that hold the mark. */
  function Marked(ops: seq<Op>, n: nat): set<nat> {
    if ops == [] then {}
    else
      var init, last := ops[..|ops| - 1], ops[|ops| - 1];
      Marked(init, n) + if last.Create? && DirtyFlag(last.flag) then {n + Creations(init)} else {}
  }

  lemma {:induction false} CreationsGrow(ops: seq<Op>, i: nat)
    requires i <= |ops|
    ensures Creations(ops[..i]) <= Creations(ops)
  {
    if i == |ops| {
      assert ops[..i] == ops;
    } else {
      CreationsGrow(ops[..|ops| - 1], i);
      assert ops[..|ops| - 1][..i] == ops[..i];
    }
  }

  // ----- The record -----

  function Opposite(kind: CommandType): CommandType {
    if kind == AddComponent then RemoveComponent else AddComponent
  }

  /** Recording one command: the opposite command cancels, and a command that would change nothing is dropped. */
  function Record(e: nat, has: bool, rec: set<Command>, kind: CommandType, c: ComponentID): set<Command> {
    if Command(Opposite(kind), c) in rec then rec - {Command(Opposite(kind), c)}
    else if (kind == AddComponent && !has && e != c) || (kind == RemoveComponent && has) then rec + {Command(kind, c)}
    else rec
  }

  /** Entity e has the components `has`; the record would turn them into `want`. */
  ghost predicate RecordOk(e: nat, has: set<ComponentID>, rec: set<Command>, want: set<ComponentID>, known: set<ComponentID>) {
    && e !in has
    && (forall c: ComponentID :: Command(AddComponent, c) in rec ==> c !in has && c != e && c in known)
    && (forall c: ComponentID :: Command(RemoveComponent, c) in rec ==> c in has)
    && (forall c: ComponentID :: c in want <==> (c in has && Command(RemoveComponent, c) !in rec) || Command(AddComponent, c) in rec)
  }

  /** Recording a command has the effect of applying it at once. */
  lemma RecordStep(e: nat, has: set<ComponentID>, rec: set<Command>, want: set<ComponentID>, known: set<ComponentID>,
                   kind: CommandType, c: ComponentID)
    requires RecordOk(e, has, rec, want, known) && c in known
    ensures RecordOk(e, has, Record(e, c in has, rec, kind, c), Apply(e, want, kind, c), known)
  {
  }

  /** No component has both commands pending. */
  lemma NeverBoth(e: nat, has: set<ComponentID>, rec: set<Command>, want: set<ComponentID>, known: set<ComponentID>, c: ComponentID)
    requires RecordOk(e, has, rec, want, known)
    ensures !(Command(AddComponent, c) in rec && Command(RemoveComponent, c) in rec)
  {
  }

  /** Carrying out any one of the commands leaves the rest to do the remaining work. */
  lemma WalkStep(e: nat, has: set<ComponentID>, rec: set<Command>, want: set<ComponentID>, known: set<ComponentID>, cmd: Command)
    requires RecordOk(e, has, rec, want, known) && cmd in rec
    ensures cmd.kind == AddComponent ==>
              cmd.com !in has && cmd.com in known && RecordOk(e, has + {cmd.com}, rec - {cmd}, want, known)
    ensures cmd.kind == RemoveComponent ==>
              cmd.com in has && RecordOk(e, has - {cmd.com}, rec - {cmd}, want, known)
  {
    assert cmd == Command(cmd.kind, cmd.com);
  }

  /** With nothing pending the entity has what it should have; with something pending it does not. */
  lemma SettledIff(e: nat, has: set<ComponentID>, rec: set<Command>, want: set<ComponentID>, known: set<ComponentID>)
    requires RecordOk(e, has, rec, want, known)
    ensures rec == {} <==> has == want
    ensures e !in want
  {
    if rec != {} {
      var cmd :| cmd in rec;
      assert cmd == Command(cmd.kind, cmd.com);
      assert cmd.kind == AddComponent ==> cmd.com in want;
      NeverBoth(e, has, rec, want, known, cmd.com);
      assert cmd.kind == RemoveComponent ==> cmd.com !in want;
    } else {
      assert forall c: ComponentID :: c in want <==> c in has;
    }
  }
}
