/** EntityVector: index/version handles with a list of free indices, and the per-entity words of the collection. */
module Entities {
  import opened Basics

  type ComponentID = nat

  datatype EntityHandle = EntityHandle(index: nat, version: nat)
  datatype EntityData = EntityData(version: nat, flag: bv32)
  datatype CommandType = AddComponent | RemoveComponent
  datatype Command = Command(kind: CommandType, com: ComponentID)

  const INVALID_ID: nat := 0xFFFF_FFFF
  const WARP_MAX_COMPONENT: nat := 250000
  const ENTITY_LIMIT_COUNT: nat := INVALID_ID - WARP_MAX_COMPONENT

  // ----- The flag word: bit 31 alive, bit 30 named, bit 29 commands pending, bits 0 to 28 the user's -----

  predicate AliveFlag(flag: bv32) { flag & 0x8000_0000 != 0 }

  predicate DirtyFlag(flag: bv32) { flag & 0x2000_0000 != 0 }

  function SetDirty(flag: bv32): bv32 { flag | 0x2000_0000 }

  function ClearDirty(flag: bv32): bv32 { flag & 0xDFFF_FFFF }

  function NewFlag(named: bool, user: bv32): bv32 {
    (if named then 0xC000_0000 else 0x8000_0000) | (user & 0x3FFF_FFFF)
  }

  /** Marking sets the mark and leaves every other bit; unmarking clears it and leaves every other bit. */
  lemma SetDirtyBits(flag: bv32)
    ensures DirtyFlag(SetDirty(flag)) && SetDirty(flag) & 0xDFFF_FFFF == flag & 0xDFFF_FFFF
    ensures AliveFlag(SetDirty(flag)) == AliveFlag(flag)
  {
    assert SetDirty(flag) & 0x8000_0000 == flag & 0x8000_0000;
  }

  lemma ClearDirtyBits(flag: bv32)
    ensures !DirtyFlag(ClearDirty(flag)) && ClearDirty(flag) & 0xDFFF_FFFF == flag & 0xDFFF_FFFF
    ensures AliveFlag(ClearDirty(flag)) == AliveFlag(flag)
  {
    assert ClearDirty(flag) & 0x8000_0000 == flag & 0x8000_0000;
  }

  /** A new entity is alive, and starts with no commands pending exactly when the user's flags stay below bit 29. */
  lemma NewFlagBits(named: bool, user: bv32)
    ensures AliveFlag(NewFlag(named, user))
    ensures DirtyFlag(NewFlag(named, user)) <==> DirtyFlag(user)
  {
  }

  /** The bits of a flag word, as they are read. */
  function UserFlag(flag: bv32): bv32 { flag & 0x3FFF_FFFF }

  predicate NamedFlag(flag: bv32) { flag >> 30 == 3 }

  lemma FlagsRead(flag: bv32)
    ensures AliveFlag(flag) <==> flag >> 31 == 1
    ensures DirtyFlag(flag) <==> (flag >> 29) & 1 == 1
    ensures NamedFlag(flag) <==> AliveFlag(flag) && (flag >> 30) & 1 == 1
  {
  }

  /** A new entity is named just when it has a name, and its user flags are the ones given, bits 0 to 29. */
  lemma NewFlagReads(named: bool, user: bv32)
    ensures NamedFlag(NewFlag(named, user)) <==> named
    ensures UserFlag(NewFlag(named, user)) == UserFlag(user) && user == (user >> 30 << 30) | UserFlag(user)
  {
  }

  predicate DirtyAt(datas: seq<EntityData>, i: nat) {
    i < |datas| && DirtyFlag(datas[i].flag)
  }

  /**
   The dirty list names the marked entities, each once; only they have commands pending. Entities that were marked from
   the start, by their user flags, are never listed: they are stuck.
   */
  ghost predicate DirtyOk(datas: seq<EntityData>, records: seq<set<Command>>, dirty: seq<nat>, stuck: set<nat>) {
    && (forall i, j | 0 <= i < j < |dirty| :: dirty[i] != dirty[j])
    && (forall e: nat :: e in dirty || e in stuck <==> DirtyAt(datas, e))
    && (forall e <- stuck :: e !in dirty)
    && (forall e: nat :: e < |records| && records[e] != {} ==> e in dirty || e in stuck)
  }

  lemma MarkDirty(datas: seq<EntityData>, records: seq<set<Command>>, dirty: seq<nat>, stuck: set<nat>, e: nat)
    requires DirtyOk(datas, records, dirty, stuck) && e < |datas| && !DirtyAt(datas, e)
    ensures DirtyOk(datas[e := datas[e].(flag := SetDirty(datas[e].flag))], records, dirty + [e], stuck)
  {
    SetDirtyBits(datas[e].flag);
    var datas' := datas[e := datas[e].(flag := SetDirty(datas[e].flag))];
    forall x: nat
      ensures x in dirty + [e] || x in stuck <==> DirtyAt(datas', x)
    {
      assert DirtyAt(datas', x) <==> DirtyAt(datas, x) || x == e;
    }
  }

  lemma UnmarkDirty(datas: seq<EntityData>, dirty: seq<nat>, stuck: set<nat>, i: nat)
    requires i < |dirty| && (forall j, k | 0 <= j < k < |dirty| :: dirty[j] != dirty[k]) && forall e <- stuck :: e !in dirty
    requires forall e: nat :: e in dirty[i..] || e in stuck <==> DirtyAt(datas, e)
    ensures dirty[i] < |datas|
    ensures var datas' := datas[dirty[i] := datas[dirty[i]].(flag := ClearDirty(datas[dirty[i]].flag))];
      forall e: nat :: e in dirty[i + 1..] || e in stuck <==> DirtyAt(datas', e)
  {
    var d := dirty[i];
    assert dirty[i..][0] == d;
    assert DirtyAt(datas, d);
    ClearDirtyBits(datas[d].flag);
    var datas' := datas[d := datas[d].(flag := ClearDirty(datas[d].flag))];
    assert dirty[i..] == [d] + dirty[i + 1..];
    forall e: nat
      ensures e in dirty[i + 1..] || e in stuck <==> DirtyAt(datas', e)
    {
      assert DirtyAt(datas', e) <==> DirtyAt(datas, e) && e != d;
    }
  }

  /** Commands may be recorded for a marked entity. */
  lemma RecordDirty(datas: seq<EntityData>, records: seq<set<Command>>, dirty: seq<nat>, stuck: set<nat>, e: nat, rec: set<Command>)
    requires DirtyOk(datas, records, dirty, stuck) && e < |records| && (e in dirty || e in stuck || rec == {})
    ensures DirtyOk(datas, records[e := rec], dirty, stuck)
  {
  }

  /** A new entity is not dirty, unless its user flags hold the mark: then it is stuck. */
  lemma NewNotDirty(datas: seq<EntityData>, records: seq<set<Command>>, dirty: seq<nat>, stuck: set<nat>,
                    datas': seq<EntityData>, records': seq<set<Command>>, named: bool, user: bv32)
    requires DirtyOk(datas, records, dirty, stuck)
    requires |datas'| == |datas| + 1 && datas'[..|datas|] == datas && datas'[|datas|].flag == NewFlag(named, user)
    requires records <= records' && forall i | |records| <= i < |records'| :: records'[i] == {}
    ensures DirtyOk(datas', records', dirty, stuck + if DirtyFlag(user) then {|datas|} else {})
  {
    NewFlagBits(named, user);
    assert !DirtyAt(datas, |datas|);
    forall x: nat
      ensures DirtyAt(datas', x) <==> DirtyAt(datas, x) || (x == |datas| && DirtyFlag(user))
    {
      if x < |datas| {
        assert datas'[..|datas|][x] == datas'[x];
      }
    }
    forall x: nat | x < |records'| && records'[x] != {}
      ensures x in dirty || x in stuck
    {
      assert records'[x] == records[x];
    }
  }

  // ----- Handles -----

  /** The handle of the n-th life of an index. Versions are 32-bit values. */
  function HandleOf(i: nat, n: nat): EntityHandle {
    EntityHandle(i, n % TWO_32)
  }

  /** As versions wrap, two lives share a handle exactly when they are lives of one index a multiple of 2^32 removals apart. */
  lemma SameHandle(i: nat, n: nat, j: nat, m: nat)
    requires n <= m
    ensures HandleOf(i, n) == HandleOf(j, m) <==> i == j && (m - n) % TWO_32 == 0
  {
  }

  /** The handle was given to one of these lives. */
  ghost predicate Repeats(h: EntityHandle, issued: set<(nat, nat)>) {
    exists n: nat :: (h.index, n) in issued && HandleOf(h.index, n) == h
  }

  // ----- The invariant, over values -----

  predicate AliveAt(datas: seq<EntityData>, i: nat) {
    i < |datas| && AliveFlag(datas[i].flag)
  }

  /** The free list holds distinct indices: just the dead ones within the limit, one of them (`held`) perhaps taken out. */
  ghost predicate FreeOk(datas: seq<EntityData>, free: seq<nat>, held: int) {
    && (forall j, k | 0 <= j < k < |free| :: free[j] != free[k])
    && (forall i: nat :: AliveAt(datas, i) ==> i <= ENTITY_LIMIT_COUNT)
    && forall i: nat :: i in free <==> i < |datas| && i <= ENTITY_LIMIT_COUNT && !AliveAt(datas, i) && i != held
  }

  /** Lives are issued in order, each one after the end of the one before it. */
  ghost predicate LivesOk(datas: seq<EntityData>, epochs: seq<nat>, issued: set<(nat, nat)>, removed: set<(nat, nat)>) {
    && |epochs| == |datas|
    && (forall i | 0 <= i < |datas| :: datas[i].version == epochs[i] % TWO_32)
    && (forall i: nat, n: nat :: (i, n) in issued <==> i < |datas| && (n < epochs[i] || (n == epochs[i] && AliveAt(datas, i))))
    && (forall i: nat, n: nat :: (i, n) in removed <==> i < |datas| && n < epochs[i])
  }

  lemma PopFree(datas: seq<EntityData>, free: seq<nat>)
    requires FreeOk(datas, free, -1) && free != []
    ensures FreeOk(datas, free[..|free| - 1], free[|free| - 1])
  {
    var rest, last := free[..|free| - 1], free[|free| - 1];
    forall i: nat
      ensures i in rest <==> i in free && i != last
    {
      if i in free && i != last {
        var j :| 0 <= j < |free| && free[j] == i;
        assert rest[j] == i;
      }
    }
  }

  lemma GrowDead(datas: seq<EntityData>, epochs: seq<nat>, issued: set<(nat, nat)>, removed: set<(nat, nat)>)
    requires FreeOk(datas, [], -1) && LivesOk(datas, epochs, issued, removed)
    ensures FreeOk(datas + [EntityData(0, 0)], [], |datas|)
    ensures LivesOk(datas + [EntityData(0, 0)], epochs + [0], issued, removed)
  {
    var datas' := datas + [EntityData(0, 0)];
    forall i: nat
      ensures AliveAt(datas', i) <==> AliveAt(datas, i)
    {
    }
  }

  /** Bringing the held index to life begins its next life. */
  lemma Revive(datas: seq<EntityData>, free: seq<nat>, epochs: seq<nat>, issued: set<(nat, nat)>, removed: set<(nat, nat)>,
               index: nat, flag: bv32)
    requires index < |datas| && !AliveAt(datas, index) && AliveFlag(flag) && index <= ENTITY_LIMIT_COUNT
    requires FreeOk(datas, free, index) && LivesOk(datas, epochs, issued, removed)
    ensures FreeOk(datas[index := datas[index].(flag := flag)], free, -1)
    ensures LivesOk(datas[index := datas[index].(flag := flag)], epochs, issued + {(index, epochs[index])}, removed)
    ensures (index, epochs[index]) !in issued
  {
    var datas' := datas[index := datas[index].(flag := flag)];
    forall i: nat
      ensures AliveAt(datas', i) <==> AliveAt(datas, i) || i == index
    {
    }
  }

  /** Ending the life of an index frees it and starts the next version. */
  lemma Kill(datas: seq<EntityData>, free: seq<nat>, epochs: seq<nat>, issued: set<(nat, nat)>, removed: set<(nat, nat)>, index: nat)
    requires index < |datas| && AliveAt(datas, index)
    requires FreeOk(datas, free, -1) && LivesOk(datas, epochs, issued, removed)
    ensures FreeOk(datas[index := EntityData((datas[index].version + 1) % TWO_32, 0)], free + [index], -1)
    ensures LivesOk(datas[index := EntityData((datas[index].version + 1) % TWO_32, 0)], epochs[index := epochs[index] + 1],
                    issued, removed + {(index, epochs[index])})
  {
    var datas' := datas[index := EntityData((datas[index].version + 1) % TWO_32, 0)];
    forall i: nat
      ensures AliveAt(datas', i) <==> AliveAt(datas, i) && i != index
    {
    }
    NextVersion(epochs[index]);
  }

  lemma NextVersion(n: nat)
    ensures (n % TWO_32 + 1) % TWO_32 == (n + 1) % TWO_32
  {
  }

  /**
   When all earlier lives of an index were issued, the next one repeats a handle exactly after 2^32 of them; a life that goes
   on repeats its own.
   */
  lemma RepeatsIff(issued: set<(nat, nat)>, epochs: seq<nat>, index: nat, current: bool)
    requires index < |epochs|
    requires forall n: nat :: (index, n) in issued <==> n < epochs[index] || (current && n == epochs[index])
    ensures Repeats(HandleOf(index, epochs[index]), issued) <==> epochs[index] >= TWO_32 || current
  {
    var last := epochs[index];
    if current {
      assert (index, last) in issued;
    } else if last >= TWO_32 {
      SameHandle(index, last - TWO_32, index, last);
      assert (index, last - TWO_32) in issued;
    }
    forall n: nat | (index, n) in issued
      ensures HandleOf(index, n) == HandleOf(index, last) ==> last >= TWO_32 || current
    {
      SameHandle(index, n, index, last);
    }
  }

  lemma BeyondLimit(datas: seq<EntityData>, free: seq<nat>, held: nat)
    requires FreeOk(datas, free, held) && held > ENTITY_LIMIT_COUNT
    ensures FreeOk(datas, free, -1)
  {
  }

  lemma EpochsCurrent(datas: seq<EntityData>, epochs: seq<nat>, issued: set<(nat, nat)>, removed: set<(nat, nat)>, index: nat)
    requires LivesOk(datas, epochs, issued, removed) && index < |datas|
    ensures |epochs| == |datas| && datas[index].version == epochs[index] % TWO_32
    ensures forall n: nat :: (index, n) in issued <==> n < epochs[index] || (AliveAt(datas, index) && n == epochs[index])
  {
  }

  /** With no index free, every index within the limit is in use. */
  lemma InUse(datas: seq<EntityData>, free: seq<nat>, epochs: seq<nat>, issued: set<(nat, nat)>, removed: set<(nat, nat)>,
              held: nat, index: nat)
    requires FreeOk(datas, free, held) && LivesOk(datas, epochs, issued, removed)
    requires free == [] && index < |datas| && index <= ENTITY_LIMIT_COUNT < held
    ensures AliveAt(datas, index) && (index, epochs[index]) in issued && FreeOk(datas, free, -1)
  {
    assert index !in free;
  }

  lemma WrapUp(n: nat)
    ensures (n % TWO_32 + 1) % TWO_32 == (n + 1) % TWO_32 && n % TWO_32 <= n && (n < TWO_32 ==> n % TWO_32 == n)
  {
  }

  /** A change of flags that keeps the alive bit keeps the invariant. */
  lemma Reflag(datas: seq<EntityData>, free: seq<nat>, epochs: seq<nat>, issued: set<(nat, nat)>, removed: set<(nat, nat)>,
               index: nat, flag: bv32)
    requires index < |datas| && AliveFlag(flag) == AliveFlag(datas[index].flag)
    requires FreeOk(datas, free, -1) && LivesOk(datas, epochs, issued, removed)
    ensures FreeOk(datas[index := datas[index].(flag := flag)], free, -1)
    ensures LivesOk(datas[index := datas[index].(flag := flag)], epochs, issued, removed)
  {
    var datas' := datas[index := datas[index].(flag := flag)];
    forall i: nat
      ensures AliveAt(datas', i) <==> AliveAt(datas, i)
    {
    }
  }

  class EntityVector {
    var freeIndex: seq<nat>
    var entityDatas: seq<EntityData>
    var archetypeRow: seq<nat>
    var commandRecord: seq<set<Command>>
    var size: nat

    /** How often each index was removed. The version is this number as a 32-bit value. */
    ghost var epochs: seq<nat>
    /** The lives (index, number of earlier removals) for which a handle was returned, and those that have ended. */
    ghost var issued: set<(nat, nat)>
    ghost var removed: set<(nat, nat)>

    /** The size is a 32-bit value, and wraps when an index was asked for 2^32 times. */
    predicate Shape()
      reads this
      ensures Shape() ==> size <= |entityDatas| && (|entityDatas| < TWO_32 ==> size == |entityDatas|)
    {
      WrapUp(|entityDatas|);
      && size == |entityDatas| % TWO_32 && |entityDatas| <= |archetypeRow| && |entityDatas| <= |commandRecord|
    }

    ghost predicate Valid()
      reads this
    {
      && Shape()
      && FreeOk(entityDatas, freeIndex, -1)
      && LivesOk(entityDatas, epochs, issued, removed)
    }

    constructor ()
      ensures Valid() && size == 0 && issued == {} && removed == {} && freeIndex == []
      ensures entityDatas == [] && archetypeRow == [] && commandRecord == []
    {
      freeIndex, entityDatas, archetypeRow, commandRecord, size := [], [], [], [], 0;
      epochs, issued, removed := [], {}, {};
    }

    /** get_entity_if_alive: whether the handle answers. */
    predicate IsAlive(handle: EntityHandle)
      requires Shape()
      reads this
    {
      handle.index < size && entityDatas[handle.index].version == handle.version && AliveAt(entityDatas, handle.index)
    }

    /** The handle of some life that was issued and has not ended. */
    ghost predicate Lives(h: EntityHandle)
      reads this
    {
      exists n: nat :: (h.index, n) in issued && (h.index, n) !in removed && HandleOf(h.index, n) == h
    }

    lemma CurrentIsLives(h: EntityHandle)
      requires Valid() && h.index < |entityDatas|
      ensures entityDatas[h.index].version == h.version && AliveAt(entityDatas, h.index) <==> Lives(h)
    {
      if entityDatas[h.index].version == h.version && AliveAt(entityDatas, h.index) {
        assert (h.index, epochs[h.index]) in issued;
      }
    }

    /** The look-up answers for exactly the handles of lives that go on; when the size has wrapped, of those below it. */
    lemma AliveIsLives(handle: EntityHandle)
      requires Valid()
      ensures IsAlive(handle) <==> handle.index < size && Lives(handle)
      ensures |entityDatas| < TWO_32 ==> (IsAlive(handle) <==> Lives(handle))
    {
      if handle.index < |entityDatas| {
        CurrentIsLives(handle);
      }
    }

    /**
     A handle below the size answers from its issue until its own removal; a later life answers to it exactly 2^32 removals
     on.
     */
    lemma AliveUntilRemoved(i: nat, n: nat)
      requires Valid() && (i, n) in issued && i < size
      ensures IsAlive(HandleOf(i, n)) <==> exists m: nat :: n <= m && (m - n) % TWO_32 == 0 && (i, m) in issued && (i, m) !in removed
      ensures epochs[i] < TWO_32 ==> (IsAlive(HandleOf(i, n)) <==> (i, n) !in removed)
    {
      var last := epochs[i];
      SameHandle(i, n, i, last);
      if IsAlive(HandleOf(i, n)) {
        assert (i, last) in issued && (i, last) !in removed;
      }
      forall m: nat | n <= m && (m - n) % TWO_32 == 0 && (i, m) in issued && (i, m) !in removed
        ensures IsAlive(HandleOf(i, n))
      {
        SameHandle(i, n, i, m);
      }
    }

    /** Makes room at the end of the three vectors, as the source grows them. */
    method TryAdjustSpace(newCount: nat)
      requires Shape() && newCount == 1
      modifies this`entityDatas, this`archetypeRow, this`commandRecord
      ensures entityDatas == old(entityDatas) + [EntityData(0, 0)]
      ensures |entityDatas| <= |archetypeRow| && |entityDatas| <= |commandRecord|
      ensures old(archetypeRow) <= archetypeRow && old(commandRecord) <= commandRecord
      ensures forall i | |old(commandRecord)| <= i < |commandRecord| :: commandRecord[i] == {}
    {
      entityDatas := entityDatas + [EntityData(0, 0)];
      if |archetypeRow| < |entityDatas| + newCount {
        archetypeRow := archetypeRow + seq(|entityDatas| + newCount - |archetypeRow|, _ => 0);
      }
      if |commandRecord| < |entityDatas| + newCount {
        commandRecord := commandRecord + seq(|entityDatas| + newCount - |commandRecord|, _ => {});
      }
    }

    /** An index is asked for, none is free, and the size has wrapped: it is in use already. */
    ghost predicate Wrapped()
      reads this
    {
      freeIndex == [] && |entityDatas| >= TWO_32
    }

    /** The last index freed, or the one at the size. Unless the size has wrapped, it is dead and held out of the free list. */
    method TakeIndex() returns (index: nat, ghost held: nat)
      requires Valid()
      modifies this
      ensures Shape() && index < |entityDatas| && FreeOk(entityDatas, freeIndex, held)
      ensures LivesOk(entityDatas, epochs, issued, removed) && issued == old(issued) && removed == old(removed)
      ensures old(freeIndex) != [] ==>
                && size == old(size) && entityDatas == old(entityDatas) && epochs == old(epochs)
                && freeIndex == old(freeIndex)[..|old(freeIndex)| - 1] && index == old(freeIndex)[|old(freeIndex)| - 1]
                && index <= ENTITY_LIMIT_COUNT
      ensures old(freeIndex) == [] ==>
                && size == (old(size) + 1) % TWO_32 && entityDatas == old(entityDatas) + [EntityData(0, 0)]
                && epochs == old(epochs) + [0] && freeIndex == [] && index == old(size)
      ensures if old(Wrapped()) then held >= TWO_32 else index == held && !AliveAt(entityDatas, index)
      ensures old(archetypeRow) <= archetypeRow && old(commandRecord) <= commandRecord
      ensures forall i | |old(commandRecord)| <= i < |commandRecord| :: commandRecord[i] == {}
    {
      if freeIndex != [] {
        index := freeIndex[|freeIndex| - 1];
        held := index;
        assert index in freeIndex;
        PopFree(entityDatas, freeIndex);
        freeIndex := freeIndex[..|freeIndex| - 1];
      } else {
        held := |entityDatas|;
        GrowDead(entityDatas, epochs, issued, removed);
        WrapUp(|entityDatas|);
        TryAdjustSpace(1);
        epochs := epochs + [0];
        index := size;
        size := (size + 1) % TWO_32;
      }
    }

    /**
     Brings an index to life: the last one freed, or the one at the size. Up to the limit its handle is returned; beyond it
     an invalid handle is returned and nothing is issued. The handle was given before just after 2^32 removals of the index,
     or when the size has wrapped.
     */
    method NewEntity(named: bool, user: bv32) returns (h: EntityHandle)
      requires Valid()
      modifies this
      ensures Valid() && removed == old(removed)
      ensures old(freeIndex) != [] ==>
                && size == old(size) && |entityDatas| == |old(entityDatas)|
                && freeIndex == old(freeIndex)[..|old(freeIndex)| - 1] && h.index == old(freeIndex)[|old(freeIndex)| - 1]
      ensures old(freeIndex) == [] ==>
                && size == (old(size) + 1) % TWO_32 && |entityDatas| == |old(entityDatas)| + 1 && freeIndex == []
                && h.index == if old(size) <= 0xFFFF_FFFF - 250000 then old(size) else 0xFFFF_FFFF
      ensures if h.index == INVALID_ID then h.version == 0 && issued == old(issued)
              else
                && h.index < |entityDatas| && h == HandleOf(h.index, epochs[h.index])
                && ((h.index, epochs[h.index]) in old(issued) <==> old(Wrapped()))
                && issued == old(issued) + {(h.index, epochs[h.index])}
                && entityDatas[h.index].flag == NewFlag(named, user)
      ensures h.index != INVALID_ID ==> (Repeats(h, old(issued)) <==> epochs[h.index] >= TWO_32 || old(Wrapped()))
      ensures |epochs| == |entityDatas| && epochs == if old(freeIndex) == [] then old(epochs) + [0] else old(epochs)
      ensures old(archetypeRow) <= archetypeRow && old(commandRecord) <= commandRecord
      ensures forall k | 0 <= k < |old(entityDatas)| && k != h.index :: entityDatas[k] == old(entityDatas)[k]
      ensures forall i | |old(commandRecord)| <= i < |commandRecord| :: commandRecord[i] == {}
    {
      hide FreeOk, LivesOk, Repeats;
      ghost var wrapped := Wrapped();
      ghost var held;
      var index;
      index, held := TakeIndex();
      EpochsCurrent(entityDatas, epochs, issued, removed, index);
      if index > ENTITY_LIMIT_COUNT {
        BeyondLimit(entityDatas, freeIndex, held);
        return EntityHandle(INVALID_ID, 0);
      }
      NewFlagBits(named, user);
      if wrapped {
        InUse(entityDatas, freeIndex, epochs, issued, removed, held, index);
        Reflag(entityDatas, freeIndex, epochs, issued, removed, index, NewFlag(named, user));
        assert issued + {(index, epochs[index])} == issued;
      } else {
        Revive(entityDatas, freeIndex, epochs, issued, removed, index, NewFlag(named, user));
      }
      entityDatas := entityDatas[index := entityDatas[index].(flag := NewFlag(named, user))];
      issued := issued + {(index, epochs[index])};
      h := EntityHandle(index, entityDatas[index].version);
      RepeatsIff(old(issued), epochs, index, wrapped);
      assert issued == old(issued) + {(index, epochs[index])};
    }

    /** Ends the life with this handle, if it goes on; only then does anything change. */
    method RemoveEntity(e: EntityHandle) returns (ok: bool)
      requires Valid() && e.index < |entityDatas|
      modifies this`entityDatas, this`freeIndex, this`epochs, this`removed
      ensures Valid() && ok == old(Lives(e))
      ensures ok ==> removed == old(removed) + {(e.index, old(epochs[e.index]))} && freeIndex == old(freeIndex) + [e.index]
      ensures !ok ==> removed == old(removed) && freeIndex == old(freeIndex) && entityDatas == old(entityDatas)
      ensures |entityDatas| == |old(entityDatas)|
      ensures forall k | 0 <= k < |entityDatas| && k != e.index :: entityDatas[k] == old(entityDatas)[k]
    {
      var i := e.index;
      CurrentIsLives(e);
      if entityDatas[i].version != e.version || !AliveAt(entityDatas, i) {
        return false;
      }
      Kill(entityDatas, freeIndex, epochs, issued, removed, i);
      removed := removed + {(i, epochs[i])};
      epochs := epochs[i := epochs[i] + 1];
      entityDatas := entityDatas[i := EntityData((entityDatas[i].version + 1) % TWO_32, 0)];
      freeIndex := freeIndex + [i];
      return true;
    }

    method SetCommandDirty(i: nat)
      requires Valid() && i < size
      modifies this`entityDatas
      ensures Valid() && entityDatas == old(entityDatas)[i := old(entityDatas)[i].(flag := SetDirty(old(entityDatas)[i].flag))]
    {
      SetDirtyBits(entityDatas[i].flag);
      Reflag(entityDatas, freeIndex, epochs, issued, removed, i, SetDirty(entityDatas[i].flag));
      entityDatas := entityDatas[i := entityDatas[i].(flag := SetDirty(entityDatas[i].flag))];
    }

    method SetCommandNoDirty(i: nat)
      requires Valid() && i < size
      modifies this`entityDatas
      ensures Valid() && entityDatas == old(entityDatas)[i := old(entityDatas)[i].(flag := ClearDirty(old(entityDatas)[i].flag))]
    {
      ClearDirtyBits(entityDatas[i].flag);
      Reflag(entityDatas, freeIndex, epochs, issued, removed, i, ClearDirty(entityDatas[i].flag));
      entityDatas := entityDatas[i := entityDatas[i].(flag := ClearDirty(entityDatas[i].flag))];
    }

    /** Without removals every index below the size is alive in its first life. */
    lemma AllAlive(h: EntityHandle)
      requires Valid() && freeIndex == [] && removed == {} && size == |entityDatas| <= ENTITY_LIMIT_COUNT + 1
      ensures IsAlive(h) <==> h.index < size && h.version == 0
    {
      if h.index < size {
        assert h.index !in freeIndex;
        assert (h.index, 0) !in removed;
      }
    }

    method SetRow(i: nat, word: nat)
      requires Valid() && i < size
      modifies this`archetypeRow
      ensures Valid() && archetypeRow == old(archetypeRow)[i := word]
    {
      archetypeRow := archetypeRow[i := word];
    }

    method SetRows(rows: seq<nat>)
      requires Valid() && |rows| == |archetypeRow|
      modifies this`archetypeRow
      ensures Valid() && archetypeRow == rows
    {
      archetypeRow := rows;
    }

    method SetRecord(i: nat, rec: set<Command>)
      requires Valid() && i < size
      modifies this`commandRecord
      ensures Valid() && commandRecord == old(commandRecord)[i := rec]
    {
      commandRecord := commandRecord[i := rec];
    }
  }
}
