/** `Arena`: slot storage with generation-checked handles, a free list and an id index. */
module Arenas {
  import opened Wrappers

  /** Generations are 32-bit counters; 0 never marks a live slot. */
  const GENERATION_LIMIT: nat := 0x1_0000_0000

  datatype Handle = Handle(index: nat, generation: nat)

  const NULL_HANDLE := Handle(0, 0)

  datatype Slot<T> = Slot(value: Option<T>, id: nat, generation: nat)

  datatype State<T> = State(slots: seq<Slot<T>>, freeList: seq<nat>, idIndex: map<nat, nat>) {

    predicate Live(i: nat) { i < |slots| && slots[i].value.Some? }

    /** `locate`: the slot a handle resolves to, if any. */
    predicate Locates(h: Handle) {
      h.generation != 0 && Live(h.index) && slots[h.index].generation == h.generation
    }

    function TryGet(h: Handle): Option<T> { if Locates(h) then slots[h.index].value else None }

    /** `id_of`; 0 is the null id. */
    function IdOf(h: Handle): nat { if Locates(h) then slots[h.index].id else 0 }

    function Find(id: nat): Handle
      requires id in idIndex ==> idIndex[id] < |slots|
    {
      if id in idIndex then Handle(idIndex[id], slots[idIndex[id]].generation) else NULL_HANDLE
    }

    /** The slot the next insertion takes. */
    function NextIndex(): nat { if freeList != [] then freeList[|freeList| - 1] else |slots| }

    /** The generation a slot has once it holds a value. */
    function LiveGeneration(i: nat): nat {
      if i < |slots| && slots[i].generation != 0 then slots[i].generation else 1
    }

    function Insert(value: T, id: nat): State<T> {
      var i := NextIndex();
      var slot := Slot(Some(value), id, LiveGeneration(i));
      State(
        if i < |slots| then slots[i := slot] else slots + [slot],
        if freeList != [] then freeList[..|freeList| - 1] else [],
        idIndex[id := i])
    }

    function Erase(h: Handle): State<T> {
      if !Locates(h) then this
      else
        var slot := slots[h.index];
        State(slots[h.index := Slot(None, slot.id, (slot.generation + 1) % GENERATION_LIMIT)],
              freeList + [h.index],
              idIndex - {slot.id})
    }

    /** An assignment through the pointer `try_get` returns. */
    function Edit(h: Handle, value: T): State<T> {
      if !Locates(h) then this
      else State(slots[h.index := slots[h.index].(value := Some(value))], freeList, idIndex)
    }

    /** The entries `for_each` visits, in slot order. */
    function Entries(): seq<(nat, T)> { EntriesOf(slots) }

    /** The free list is exactly the dead slots, without repeats. */
    ghost predicate FreeListValid() {
      && (forall i :: 0 <= i < |freeList| ==> freeList[i] < |slots| && !Live(freeList[i]))
      && (forall i, j :: 0 <= i < j < |freeList| ==> freeList[i] != freeList[j])
      && (forall i :: 0 <= i < |slots| && !Live(i) ==> i in freeList)
    }

    /** The id index is a bijection between the live ids and the live slots. */
    ghost predicate IndexValid() {
      && (forall i :: 0 <= i < |slots| && Live(i) ==> slots[i].id in idIndex && idIndex[slots[i].id] == i)
      && (forall id :: id in idIndex ==> Live(idIndex[id]) && slots[idIndex[id]].id == id)
    }

    ghost predicate GenerationsValid() {
      forall i :: 0 <= i < |slots| ==> slots[i].generation < GENERATION_LIMIT && (Live(i) ==> slots[i].generation != 0)
    }

    ghost predicate Valid() { FreeListValid() && IndexValid() && GenerationsValid() }
  }

  function EntriesOf<T>(slots: seq<Slot<T>>): seq<(nat, T)> {
    if slots == [] then []
    else
      var last := slots[|slots| - 1];
      EntriesOf(slots[..|slots| - 1]) + if last.value.Some? then [(last.id, last.value.value)] else []
  }

  /** The mutable arena; every method says which state it leaves behind. */
  class Arena<T> {
    var slots: seq<Slot<T>>
    var freeList: seq<nat>
    var idIndex: map<nat, nat>

    function Contents(): State<T>
      reads this
    {
      State(slots, freeList, idIndex)
    }

    constructor ()
      ensures Contents() == State([], [], map[])
      ensures Contents().Valid()
    {
      slots, freeList, idIndex := [], [], map[];
    }

    /** `std::make_shared<Arena>(*arena_)`. */
    constructor Copy(other: Arena<T>)
      ensures Contents() == other.Contents()
    {
      slots, freeList, idIndex := other.slots, other.freeList, other.idIndex;
    }

    method Insert(value: T, id: nat) returns (h: Handle)
      requires Contents().Valid()
      modifies this
      ensures Contents() == old(Contents()).Insert(value, id)
      ensures h == Handle(old(Contents()).NextIndex(), old(Contents()).LiveGeneration(h.index))
    {
      var index;
      if freeList != [] {
        index := freeList[|freeList| - 1];
        freeList := freeList[..|freeList| - 1];
      } else {
        index := |slots|;
        slots := slots + [Slot(None, 0, 0)];
      }
      var slot := slots[index].(value := Some(value), id := id);
      if slot.generation == 0 {
        slot := slot.(generation := 1);
      }
      slots := slots[index := slot];
      idIndex := idIndex[id := index];
      h := Handle(index, slot.generation);
    }

    method Erase(h: Handle)
      modifies this
      ensures Contents() == old(Contents()).Erase(h)
    {
      if !Contents().Locates(h) {
        return;
      }
      var slot := slots[h.index];
      idIndex := idIndex - {slot.id};
      slots := slots[h.index := Slot(None, slot.id, (slot.generation + 1) % GENERATION_LIMIT)];
      freeList := freeList + [h.index];
    }

    /** Overwrites the value `try_get` points at; `found` tells whether it was not null. */
    method Edit(h: Handle, value: T) returns (found: bool)
      modifies this
      ensures found == old(Contents()).Locates(h)
      ensures Contents() == old(Contents()).Edit(h, value)
    {
      found := Contents().Locates(h);
      if found {
        slots := slots[h.index := slots[h.index].(value := Some(value))];
      }
    }

    method ForEach() returns (visited: seq<(nat, T)>)
      ensures visited == Contents().Entries()
    {
      visited := [];
      for i := 0 to |slots|
        invariant visited == EntriesOf(slots[..i])
      {
        assert slots[..i + 1][..i] == slots[..i];
        if slots[i].value.Some? {
          visited := visited + [(slots[i].id, slots[i].value.value)];
        }
      }
      assert slots[..|slots|] == slots;
    }
  }

  // ------------------------------------------------------------- one operation

  /** What an insertion changes. */
  lemma InsertShape<T>(s: State<T>, value: T, id: nat)
    requires s.FreeListValid()
    ensures var s', i := s.Insert(value, id), s.NextIndex();
            && !s.Live(i) && i < |s'.slots|
            && s'.slots[i] == Slot(Some(value), id, s.LiveGeneration(i))
            && s'.Live(i)
            && (forall j :: 0 <= j < |s.slots| && j != i ==> s'.slots[j] == s.slots[j])
            && (forall j: nat :: j != i ==> (s'.Live(j) <==> s.Live(j)))
            && s'.FreeListValid()
  {
    NextIsFree(s);
    InsertKeepsFreeList(s, value, id);
    hide State.FreeListValid, State.LiveGeneration, State.NextIndex;
  }

  lemma NextIsFree<T>(s: State<T>)
    requires s.FreeListValid()
    ensures !s.Live(s.NextIndex()) && s.NextIndex() <= |s.slots|
    ensures s.freeList == [] <==> s.NextIndex() == |s.slots|
  {}

  lemma InsertKeepsFreeList<T>(s: State<T>, value: T, id: nat)
    requires s.FreeListValid()
    ensures s.Insert(value, id).FreeListValid()
  {
    NextIsFree(s);
    hide State.LiveGeneration;
    var s', i := s.Insert(value, id), s.NextIndex();
    if s.freeList == [] {
      forall j | 0 <= j < |s'.slots|
        ensures s'.Live(j)
      {
        if j < i {
          assert s.Live(j) && s'.slots[j] == s.slots[j];
        }
      }
    } else {
      var last := |s.freeList| - 1;
      assert s.freeList == s.freeList[..last] + [i];
      assert forall j: nat :: s'.Live(j) <==> s.Live(j) || j == i;
    }
  }

  /** An insertion keeps the invariant exactly when its id is not already live. */
  lemma InsertKeepsValid<T>(s: State<T>, value: T, id: nat)
    requires s.Valid()
    ensures s.Insert(value, id).Valid() <==> id !in s.idIndex
  {
    InsertShape(s, value, id);
    hide State.FreeListValid;
    var i, s' := s.NextIndex(), s.Insert(value, id);
    if id in s.idIndex {
      var j := s.idIndex[id];
      assert s'.Live(j) && s'.slots[j].id == id && i != j;
      assert !s'.IndexValid();
    } else {
      assert s'.IndexValid();
    }
  }

  lemma EraseShape<T>(s: State<T>, h: Handle)
    requires s.FreeListValid() && s.Locates(h)
    ensures s.Erase(h).FreeListValid()
    ensures forall i: nat :: s.Erase(h).Live(i) <==> s.Live(i) && i != h.index
  {
    var s' := s.Erase(h);
    assert forall i: nat :: s'.Live(i) <==> s.Live(i) && i != h.index;
    forall i | 0 <= i < |s'.slots| && !s'.Live(i)
      ensures i in s'.freeList
    {
      if i == h.index {
        assert s'.freeList[|s.freeList|] == i;
      }
    }
  }

  lemma EraseKeepsValid<T>(s: State<T>, h: Handle)
    requires s.Valid()
    ensures s.Erase(h).Valid()
  {
    if s.Locates(h) {
      EraseShape(s, h);
      hide State.FreeListValid;
      assert s.Erase(h).IndexValid();
    }
  }

  /** A handle that resolves to nothing has no value and no id, and neither erases nor changes anything. */
  lemma StaleHandleIsInert<T>(s: State<T>, h: Handle, value: T)
    requires !s.Locates(h)
    ensures s.TryGet(h) == None && s.IdOf(h) == 0 && s.Erase(h) == s && s.Edit(h, value) == s
  {}

  /** The slot that was freed last is taken first, under a new generation: the insertion undoes the
      erasure on the free list, and the handle that was erased stays stale. */
  lemma LastFreedFirst<T>(s: State<T>, h: Handle, value: T, id: nat)
    requires s.Locates(h)
    ensures var t := s.Erase(h);
            var u, g := t.Insert(value, id), t.LiveGeneration(h.index);
            && t.NextIndex() == h.index && u.freeList == s.freeList && |u.slots| == |s.slots|
            && u.TryGet(Handle(h.index, g)) == Some(value) && u.IdOf(Handle(h.index, g)) == id
            && !t.Locates(h) && (h.generation < GENERATION_LIMIT ==> !u.Locates(h))
  {}

  lemma EditKeepsValid<T>(s: State<T>, h: Handle, value: T)
    requires s.Valid()
    ensures s.Edit(h, value).Valid()
  {
    var s' := s.Edit(h, value);
    assert forall i: nat :: s'.Live(i) <==> s.Live(i);
    assert s'.FreeListValid() && s'.IndexValid();
  }

  /** `find` and `id_of` are inverse on live entities. */
  lemma FindIdOfInverse<T>(s: State<T>, id: nat, h: Handle)
    requires s.Valid()
    ensures id in s.idIndex ==> s.Locates(s.Find(id)) && s.IdOf(s.Find(id)) == id
    ensures s.Locates(h) ==> s.IdOf(h) in s.idIndex && s.Find(s.IdOf(h)) == h
    ensures id !in s.idIndex ==> !s.Locates(s.Find(id))
  {}

  // ------------------------------------------------------------------ whole runs

  /** A record of one insertion: which slot, the how-manieth insertion into that
      slot, and whether it has been erased since. */
  datatype Ticket<T> = Ticket(index: nat, birth: nat, id: nat, value: T, live: bool)

  /** An arena together with everything ever inserted into it. */
  datatype Run<T> = Run(arena: State<T>, births: seq<nat>, tickets: seq<Ticket<T>>)

  datatype Op<T> = OpInsert(value: T, id: nat) | OpErase(handle: Handle) | OpEdit(handle: Handle, value: T)

  /** The number of distinct generations a live slot can have. */
  const CYCLE: nat := GENERATION_LIMIT - 1

  /** The generation a slot carries during its `birth`-th occupation. */
  function GenerationOf(birth: nat): (g: nat)
    requires birth >= 1
    ensures 1 <= g < GENERATION_LIMIT
  {
    (birth - 1) % CYCLE + 1
  }

  function HandleOf<T>(t: Ticket<T>): Handle
    requires t.birth >= 1
  {
    Handle(t.index, GenerationOf(t.birth))
  }

  /** Updates the ticket of the current occupant of slot `i`. */
  function UpdateOccupant<T>(run: Run<T>, i: nat, f: Ticket<T> -> Ticket<T>): seq<Ticket<T>>
    requires i < |run.births|
  {
    seq(|run.tickets|, j requires 0 <= j < |run.tickets| =>
      var t := run.tickets[j];
      if t.index == i && t.birth == run.births[i] then f(t) else t)
  }

  predicate WellSized<T>(run: Run<T>) {
    |run.births| == |run.arena.slots| && run.arena.NextIndex() <= |run.arena.slots|
  }

  function Step<T>(run: Run<T>, op: Op<T>): Run<T>
    requires WellSized(run)
  {
    match op
    case OpInsert(value, id) =>
      var i := run.arena.NextIndex();
      var births := if i == |run.births| then run.births + [1] else run.births[i := run.births[i] + 1];
      Run(run.arena.Insert(value, id), births, run.tickets + [Ticket(i, births[i], id, value, true)])
    case OpErase(h) =>
      if !run.arena.Locates(h) then run
      else Run(run.arena.Erase(h), run.births, UpdateOccupant(run, h.index, (t: Ticket<T>) => t.(live := false)))
    case OpEdit(h, value) =>
      if !run.arena.Locates(h) then run
      else Run(run.arena.Edit(h, value), run.births, UpdateOccupant(run, h.index, (t: Ticket<T>) => t.(value := value)))
  }

  /** `insert` does not check the id, so its callers must bring a fresh one. */
  predicate Legal<T>(run: Run<T>, op: Op<T>) { op.OpInsert? ==> op.id !in run.arena.idIndex }

  predicate SlotConsistent<T>(run: Run<T>, i: nat)
    requires i < |run.births| == |run.arena.slots|
  {
    var slot := run.arena.slots[i];
    && run.births[i] >= 1
    && slot.generation == if slot.value.Some? then GenerationOf(run.births[i])
                          else (GenerationOf(run.births[i]) + 1) % GENERATION_LIMIT
  }

  ghost predicate TicketConsistent<T>(run: Run<T>, t: Ticket<T>)
    requires |run.births| == |run.arena.slots|
  {
    && t.index < |run.births| && 1 <= t.birth <= run.births[t.index]
    && (t.live <==> t.birth == run.births[t.index] && run.arena.Live(t.index))
    && (t.live ==> run.arena.slots[t.index].value == Some(t.value) && run.arena.slots[t.index].id == t.id)
  }

  ghost predicate SlotsConsistent<T>(run: Run<T>)
    requires |run.births| == |run.arena.slots|
  {
    forall i :: 0 <= i < |run.births| ==> SlotConsistent(run, i)
  }

  ghost predicate TicketsConsistent<T>(run: Run<T>)
    requires |run.births| == |run.arena.slots|
  {
    forall j :: 0 <= j < |run.tickets| ==> TicketConsistent(run, run.tickets[j])
  }

  predicate SameOccupation<T>(t: Ticket<T>, u: Ticket<T>) { t.index == u.index && t.birth == u.birth }

  /** No two tickets record the same occupation. */
  ghost predicate TicketsDistinct<T>(tickets: seq<Ticket<T>>) {
    forall j, k :: 0 <= j < k < |tickets| ==> !SameOccupation(tickets[j], tickets[k])
  }

  predicate Records<T>(t: Ticket<T>, i: nat, birth: nat) { t.index == i && t.birth == birth }

  /** Every occupant has a ticket. */
  ghost predicate OccupantsRecorded<T>(run: Run<T>)
    requires |run.births| == |run.arena.slots|
  {
    forall i :: 0 <= i < |run.births| && run.arena.Live(i) ==>
      exists j :: 0 <= j < |run.tickets| && Records(run.tickets[j], i, run.births[i])
  }

  ghost predicate TicketsComplete<T>(run: Run<T>)
    requires |run.births| == |run.arena.slots|
  {
    TicketsDistinct(run.tickets) && OccupantsRecorded(run)
  }

  ghost predicate Inv<T>(run: Run<T>) {
    WellSized(run) && run.arena.Valid() && SlotsConsistent(run) && TicketsConsistent(run) && TicketsComplete(run)
  }

  lemma NextGeneration(birth: nat)
    requires birth >= 1
    ensures var g := (GenerationOf(birth) + 1) % GENERATION_LIMIT;
            GenerationOf(birth + 1) == if g != 0 then g else 1
  {
    var r := (birth - 1) % CYCLE;
    assert birth - 1 == CYCLE * ((birth - 1) / CYCLE) + r;
    if r + 1 == CYCLE {
      assert birth == CYCLE * ((birth - 1) / CYCLE + 1);
      assert birth % CYCLE == 0;
    } else {
      assert birth == CYCLE * ((birth - 1) / CYCLE) + (r + 1);
      assert birth % CYCLE == r + 1;
    }
  }

  lemma InsertSlots<T>(run: Run<T>, value: T, id: nat)
    requires Inv(run)
    ensures WellSized(Step(run, OpInsert(value, id))) && SlotsConsistent(Step(run, OpInsert(value, id)))
  {
    var run', i := Step(run, OpInsert(value, id)), run.arena.NextIndex();
    InsertShape(run.arena, value, id);
    hide State.FreeListValid, State.IndexValid, State.Insert, GenerationOf, TicketsConsistent, TicketsComplete;
    assert |run'.arena.slots| == |run'.births| by { InsertLength(run.arena, value, id); }
    if i < |run.births| {
      assert SlotConsistent(run, i);
      NextGeneration(run.births[i]);
    }
    forall k | 0 <= k < |run'.births|
      ensures SlotConsistent(run', k)
    {
      if k != i {
        assert SlotConsistent(run, k);
      }
    }
  }

  lemma InsertLength<T>(s: State<T>, value: T, id: nat)
    requires s.FreeListValid()
    ensures var s' := s.Insert(value, id);
            && |s'.slots| == (if s.NextIndex() == |s.slots| then |s.slots| + 1 else |s.slots|)
            && s'.NextIndex() <= |s'.slots|
  {}

  lemma InsertTickets<T>(run: Run<T>, value: T, id: nat)
    requires Inv(run)
    requires WellSized(Step(run, OpInsert(value, id)))
    ensures TicketsConsistent(Step(run, OpInsert(value, id)))
  {
    var run', i := Step(run, OpInsert(value, id)), run.arena.NextIndex();
    InsertShape(run.arena, value, id);
    hide State.FreeListValid, State.IndexValid, State.GenerationsValid, State.Insert, SlotsConsistent, TicketsComplete;
    forall j | 0 <= j < |run'.tickets|
      ensures TicketConsistent(run', run'.tickets[j])
    {
      if j < |run.tickets| {
        assert TicketConsistent(run, run.tickets[j]);
      }
    }
  }

  /** The ticket of an insertion is new: the slot has never been occupied that often. */
  lemma NewTicketDistinct<T>(tickets: seq<Ticket<T>>, t: Ticket<T>)
    requires TicketsDistinct(tickets)
    requires forall j :: 0 <= j < |tickets| ==> !SameOccupation(tickets[j], t)
    ensures TicketsDistinct(tickets + [t])
  {}

  lemma InsertCompletes<T>(run: Run<T>, value: T, id: nat)
    requires Inv(run)
    requires WellSized(Step(run, OpInsert(value, id)))
    ensures TicketsComplete(Step(run, OpInsert(value, id)))
  {
    var run', i := Step(run, OpInsert(value, id)), run.arena.NextIndex();
    InsertShape(run.arena, value, id);
    hide State.Valid, State.Insert, SlotsConsistent, TicketsDistinct;
    var t := Ticket(i, run'.births[i], id, value, true);
    forall j | 0 <= j < |run.tickets|
      ensures !SameOccupation(run.tickets[j], t)
    {
      assert TicketConsistent(run, run.tickets[j]);
    }
    NewTicketDistinct(run.tickets, t);
    hide TicketsConsistent, TicketConsistent, State.FreeListValid;
    forall k | 0 <= k < |run'.births| && run'.arena.Live(k)
      ensures exists j :: 0 <= j < |run'.tickets| && Records(run'.tickets[j], k, run'.births[k])
    {
      if k == i {
        assert Records(run'.tickets[|run.tickets|], k, run'.births[k]);
      } else {
        var j :| 0 <= j < |run.tickets| && Records(run.tickets[j], k, run.births[k]);
        assert run'.tickets[j] == run.tickets[j];
      }
    }
  }

  /** Erasing and editing change slot `i` and the ticket of its occupant, nothing else. */
  lemma OccupantStep<T>(run: Run<T>, run': Run<T>, i: nat)
    requires Inv(run) && run.arena.Live(i)
    requires |run'.arena.slots| == |run.arena.slots| && run'.births == run.births && |run'.tickets| == |run.tickets|
    requires forall k :: 0 <= k < |run.births| && k != i ==> run'.arena.slots[k] == run.arena.slots[k]
    requires run'.arena.Live(i) ==> run'.arena.slots[i].id == run.arena.slots[i].id
    requires forall j :: 0 <= j < |run.tickets| ==>
               var t, t' := run.tickets[j], run'.tickets[j];
               && SameOccupation(t', t) && t'.id == t.id
               && if t.index == i && t.birth == run.births[i]
                  then t'.live == run'.arena.Live(i) && (t'.live ==> run'.arena.slots[i].value == Some(t'.value))
                  else t' == t
    ensures TicketsConsistent(run') && TicketsComplete(run')
  {
    hide State.Valid, SlotsConsistent;
    forall j | 0 <= j < |run'.tickets|
      ensures TicketConsistent(run', run'.tickets[j])
    {
      assert TicketConsistent(run, run.tickets[j]);
    }
    forall k | 0 <= k < |run'.births| && run'.arena.Live(k)
      ensures exists j :: 0 <= j < |run'.tickets| && Records(run'.tickets[j], k, run'.births[k])
    {
      assert run.arena.Live(k);
      var j :| 0 <= j < |run.tickets| && Records(run.tickets[j], k, run.births[k]);
      assert SameOccupation(run'.tickets[j], run.tickets[j]);
    }
  }

  lemma ErasedSize<T>(s: State<T>, h: Handle)
    requires s.FreeListValid()
    ensures |s.Erase(h).slots| == |s.slots| && s.Erase(h).NextIndex() <= |s.slots|
  {}

  lemma EditedSize<T>(s: State<T>, h: Handle, value: T)
    requires s.FreeListValid()
    ensures |s.Edit(h, value).slots| == |s.slots| && s.Edit(h, value).NextIndex() <= |s.slots|
  {}

  lemma EraseStep<T>(run: Run<T>, h: Handle)
    requires Inv(run) && run.arena.Locates(h)
    ensures Inv(Step(run, OpErase(h)))
  {
    hide State.FreeListValid, State.IndexValid, State.GenerationsValid, State.NextIndex, State.Insert, GenerationOf;
    hide TicketsDistinct, OccupantsRecorded, TicketsConsistent, TicketConsistent;
    var run' := Step(run, OpErase(h));
    ErasedSize(run.arena, h);
    EraseKeepsValid(run.arena, h);
    OccupantStep(run, run', h.index);
    forall k | 0 <= k < |run'.births|
      ensures SlotConsistent(run', k)
    {
      assert SlotConsistent(run, k);
    }
  }

  lemma EditStep<T>(run: Run<T>, h: Handle, value: T)
    requires Inv(run) && run.arena.Locates(h)
    ensures Inv(Step(run, OpEdit(h, value)))
  {
    hide State.FreeListValid, State.IndexValid, State.GenerationsValid, State.NextIndex, State.Insert, GenerationOf;
    hide TicketsDistinct, OccupantsRecorded;
    var run' := Step(run, OpEdit(h, value));
    EditedSize(run.arena, h, value);
    EditKeepsValid(run.arena, h, value);
    forall j | 0 <= j < |run.tickets|
      ensures run.tickets[j].index == h.index && run.tickets[j].birth == run.births[h.index] ==> run.tickets[j].live
    {
      assert TicketConsistent(run, run.tickets[j]);
    }
    hide TicketsConsistent, TicketConsistent;
    OccupantStep(run, run', h.index);
    forall k | 0 <= k < |run'.births|
      ensures SlotConsistent(run', k)
    {
      assert SlotConsistent(run, k);
    }
  }

  lemma StepKeepsInv<T>(run: Run<T>, op: Op<T>)
    requires Inv(run) && Legal(run, op)
    ensures Inv(Step(run, op))
  {
    match op
    case OpInsert(value, id) =>
      InsertKeepsValid(run.arena, value, id);
      hide Inv, Step, State.Valid, SlotsConsistent, TicketsConsistent, TicketsComplete;
      InsertSlots(run, value, id);
      InsertTickets(run, value, id);
      InsertCompletes(run, value, id);
      StepArena(run, op);
      InvParts(Step(run, op));
    case OpErase(h) =>
      hide Inv;
      if run.arena.Locates(h) { EraseStep(run, h); }
    case OpEdit(h, value) =>
      hide Inv;
      if run.arena.Locates(h) { EditStep(run, h, value); }
  }

  lemma StepArena<T>(run: Run<T>, op: Op<T>)
    requires WellSized(run) && op.OpInsert?
    ensures Step(run, op).arena == run.arena.Insert(op.value, op.id)
  {}

  lemma InvParts<T>(run: Run<T>)
    requires WellSized(run) && run.arena.Valid() && SlotsConsistent(run) && TicketsConsistent(run)
             && TicketsComplete(run)
    ensures Inv(run)
  {}

  /** The run a history of operations produces on an arena that starts empty, if
      each insertion brought a fresh id. */
  ghost function After<T>(ops: seq<Op<T>>): (r: Option<Run<T>>)
    ensures r.Some? ==> Inv(r.value)
  {
    if ops == [] then Some(Run(State([], [], map[]), [], []))
    else
      var last := |ops| - 1;
      var before := After(ops[..last]);
      if before.None? || !Legal(before.value, ops[last]) then None
      else
        StepKeepsInv(before.value, ops[last]);
        Some(Step(before.value, ops[last]))
  }

  /** Generations repeat with period `CYCLE`. */
  lemma SameGeneration(a: nat, b: nat)
    requires 1 <= a <= b
    ensures GenerationOf(a) == GenerationOf(b) <==> (b - a) % CYCLE == 0
  {
    var qa, ra, qb, rb := (a - 1) / CYCLE, (a - 1) % CYCLE, (b - 1) / CYCLE, (b - 1) % CYCLE;
    assert b - a == CYCLE * (qb - qa) + (rb - ra);
    if ra <= rb {
      UniqueRemainder(b - a, qb - qa, rb - ra);
    } else {
      assert CYCLE * (qb - qa) == CYCLE * (qb - qa - 1) + CYCLE;
      UniqueRemainder(b - a, qb - qa - 1, rb - ra + CYCLE);
    }
  }

  lemma UniqueRemainder(n: int, q: int, r: int)
    requires n == CYCLE * q + r && 0 <= r < CYCLE
    ensures n % CYCLE == r
  {
    assert n == CYCLE * (n / CYCLE) + n % CYCLE;
    assert CYCLE * (q - n / CYCLE) == n % CYCLE - r;
  }

  /** How often slot `t.index` has been taken again since the insertion `t` records. */
  function Reuses<T>(run: Run<T>, t: Ticket<T>): int
    requires t.index < |run.births|
  {
    run.births[t.index] - t.birth
  }

  lemma ResolvesExactly<T>(run: Run<T>, t: Ticket<T>)
    requires Inv(run) && t in run.tickets
    ensures TicketConsistent(run, t)
    ensures run.arena.Locates(HandleOf(t)) <==> run.arena.Live(t.index) && Reuses(run, t) % CYCLE == 0
  {
    hide State.Valid, TicketsComplete, GenerationOf;
    assert TicketConsistent(run, t);
    assert SlotConsistent(run, t.index);
    SameGeneration(t.birth, run.births[t.index]);
  }

  lemma ResolvesWithinCycle<T>(run: Run<T>, t: Ticket<T>)
    requires Inv(run) && t in run.tickets
    requires t.index < |run.births| && Reuses(run, t) < CYCLE
    ensures 1 <= t.birth
    ensures run.arena.TryGet(HandleOf(t)) == (if t.live then Some(t.value) else None)
    ensures t.live ==> run.arena.IdOf(HandleOf(t)) == t.id
    ensures t.live ==> t.id in run.arena.idIndex && run.arena.idIndex[t.id] < |run.arena.slots|
    ensures t.live ==> run.arena.Find(t.id) == HandleOf(t)
  {
    ResolvesExactly(run, t);
    FindIdOfInverse(run.arena, t.id, HandleOf(t));
    hide Inv, State.Valid, GenerationOf;
  }

  /** Exactly when a handle resolves, after any history: its slot is occupied and
      has been reused a multiple of 2^32 - 1 times since the handle was issued. */
  lemma HandleResolvesExactly<T>(ops: seq<Op<T>>, t: Ticket<T>)
    requires After(ops).Some? && t in After(ops).value.tickets
    ensures var run := After(ops).value;
            && TicketConsistent(run, t)
            && (run.arena.Locates(HandleOf(t)) <==> run.arena.Live(t.index) && Reuses(run, t) % 0xFFFF_FFFF == 0)
  {
    hide Inv;
    ResolvesExactly(After(ops).value, t);
  }

  /** While its slot has been reused fewer than 2^32 - 1 times, a handle resolves
      if and only if its own insertion has not been erased, and then to the value
      last stored there; once stale it stays stale. */
  lemma HandleResolvesIffLive<T>(ops: seq<Op<T>>, t: Ticket<T>)
    requires After(ops).Some? && t in After(ops).value.tickets
    requires t.index < |After(ops).value.births| && Reuses(After(ops).value, t) < CYCLE
    ensures var arena := After(ops).value.arena;
            && 1 <= t.birth
            && arena.TryGet(HandleOf(t)) == (if t.live then Some(t.value) else None)
            && (t.live ==> arena.IdOf(HandleOf(t)) == t.id && t.id in arena.idIndex)
  {
    hide Inv;
    ResolvesWithinCycle(After(ops).value, t);
  }

  // -------------------------------------------------- the wrap-around is reachable

  /** `n` insertions into the same slot, each followed by its erasure. */
  function Churn(n: nat): seq<Op<nat>> {
    if n == 0 then [] else Churn(n - 1) + [OpInsert(n, n)] + [OpErase(Handle(0, GenerationOf(n)))]
  }

  function ChurnTickets(n: nat): (ts: seq<Ticket<nat>>)
    ensures |ts| == n
    ensures forall j :: 0 <= j < n ==> ts[j] == Ticket(0, j + 1, j + 1, j + 1, false)
  {
    seq(n, (j: nat) => Ticket(0, j + 1, j + 1, j + 1, false))
  }

  function ChurnRun(n: nat): Run<nat>
    requires n >= 1
  {
    Run(State([Slot(None, n, (GenerationOf(n) + 1) % GENERATION_LIMIT)], [0], map[]), [n], ChurnTickets(n))
  }

  lemma AfterSnoc<T>(ops: seq<Op<T>>, op: Op<T>)
    requires After(ops).Some? && Legal(After(ops).value, op)
    ensures After(ops + [op]) == Some(Step(After(ops).value, op))
  {
    assert (ops + [op])[..|ops|] == ops;
  }

  /** The run before the `n`-th round of churning. */
  function BeforeRound(n: nat): Run<nat>
    requires n >= 1
  {
    if n == 1 then Run(State([], [], map[]), [], []) else ChurnRun(n - 1)
  }

  function DuringRound(n: nat): Run<nat>
    requires n >= 1
  {
    Run(State([Slot(Some(n), n, GenerationOf(n))], [], map[n := 0]), [n],
        ChurnTickets(n - 1) + [Ticket(0, n, n, n, true)])
  }

  lemma RoundInserts(n: nat)
    requires n >= 1
    ensures Step(BeforeRound(n), OpInsert(n, n)) == DuringRound(n)
    ensures Legal(BeforeRound(n), OpInsert(n, n))
  {
    if n > 1 {
      NextGeneration(n - 1);
    } else {
      FirstGeneration();
    }
    hide GenerationOf;
    var run := Step(BeforeRound(n), OpInsert(n, n));
    assert run.arena.slots == [Slot(Some(n), n, GenerationOf(n))];
  }

  lemma RoundErases(n: nat)
    requires n >= 1
    ensures Step(DuringRound(n), OpErase(Handle(0, GenerationOf(n)))) == ChurnRun(n)
  {
    hide GenerationOf;
    var run := Step(DuringRound(n), OpErase(Handle(0, GenerationOf(n))));
    assert run.tickets == ChurnTickets(n);
    assert run.arena.idIndex == map[];
  }

  lemma {:induction false} ChurnReaches(n: nat)
    requires n >= 1
    ensures After(Churn(n)) == Some(ChurnRun(n))
  {
    hide GenerationOf, Step, Inv, ChurnRun, DuringRound;
    if n > 1 {
      ChurnReaches(n - 1);
    }
    assert After(Churn(n - 1)) == Some(BeforeRound(n));
    RoundInserts(n);
    AfterSnoc(Churn(n - 1), OpInsert(n, n));
    RoundErases(n);
    AfterSnoc(Churn(n - 1) + [OpInsert(n, n)], OpErase(Handle(0, GenerationOf(n))));
  }

  lemma FirstGeneration()
    ensures GenerationOf(1) == 1
  {}

  /** The promise that a stale handle never resolves fails after 2^32 - 1 reuses
      of one slot: the first handle ever issued, long erased, resolves to the
      latest entity. */
  lemma StaleHandleResolvesAfterWrap()
    ensures var ops, first := Churn(CYCLE) + [OpInsert(0, 0)], Ticket(0, 1, 1, 1, false);
            && After(ops).Some?
            && first in After(ops).value.tickets
            && After(ops).value.arena.TryGet(HandleOf(first)) == Some(0)
  {
    ChurnReaches(CYCLE);
    AfterSnoc(Churn(CYCLE), OpInsert(0, 0));
    LastRound();
    hide Churn, Step, After, GenerationOf;
    var run := Step(ChurnRun(CYCLE), OpInsert(0, 0));
    assert run.tickets[0] == Ticket(0, 1, 1, 1, false);
  }

  /** One more insertion after `CYCLE` rounds issues the first handle again. */
  lemma LastRound()
    ensures var run := Step(ChurnRun(CYCLE), OpInsert(0, 0));
            && run.tickets == ChurnTickets(CYCLE) + [Ticket(0, CYCLE + 1, 0, 0, true)]
            && run.arena.TryGet(Handle(0, GenerationOf(1))) == Some(0)
  {
    NextGeneration(CYCLE);
    SameGeneration(1, CYCLE + 1);
    hide GenerationOf;
  }
}
