/** The store as it runs: the counted heap, the use counts and the table tuples
    are fields updated in place. Every method is one step of the shared form. */
module Stores {
  import opened Workspaces
  import A = Arenas

  class Store<T> {
    /** The live `shared_ptr` targets, by address. */
    var heap: map<nat, Cell<T>>
    var nextCell: nat
    /** Workspaces and snapshots, in order of creation. */
    var holders: seq<Holder>

    function Shared(): World<T>
      reads this
    {
      World(heap, nextCell, holders)
    }

    constructor ()
      ensures Shared() == World(map[], 0, [])
    {
      heap, nextCell, holders := map[], 0, [];
    }

    /** `CowTable::write`: the address of the arena, private from here on. */
    method Write(w: nat, k: nat) returns (c: nat)
      requires Shared().HasTable(w, k)
      modifies this
      ensures Shared() == old(Shared()).Write(w, k)
      ensures Shared().HasTable(w, k) && c == holders[w].tables[k]
    {
      c := holders[w].tables[k];
      var cell := heap[c];
      if cell.owners > 1 {
        heap := heap[c := cell.(owners := cell.owners - 1)];
        c := nextCell;
        heap := heap[c := Cell(cell.arena, 1)];
        nextCell := nextCell + 1;
        holders := holders[w := holders[w].(tables := holders[w].tables[k := c])];
      }
    }

    /** `write().insert(value, id)` after the allocator has been moved. */
    method InsertAt(w: nat, k: nat, value: T, id: nat, next: nat) returns (h: A.Handle)
      requires Shared().HasTable(w, k)
      modifies this
      ensures Shared() == old(Shared()).SetNextId(w, next).Mutate(w, k, old(Shared()).Table(w, k).Insert(value, id))
      ensures var table := old(Shared().Table(w, k)); h == A.Handle(table.NextIndex(), table.LiveGeneration(h.index))
    {
      hide A.State.Insert;
      holders := holders[w := holders[w].(nextId := next)];
      assert Shared() == old(Shared()).SetNextId(w, next);
      var c := Write(w, k);
      var arena := heap[c].arena;
      h := A.Handle(arena.NextIndex(), arena.LiveGeneration(arena.NextIndex()));
      heap := heap[c := heap[c].(arena := arena.Insert(value, id))];
    }

    method Insert(w: nat, k: nat, value: T) returns (h: A.Handle)
      requires Inv(Shared()) && Legal(Views(Shared()), Op.Insert(w, k, value))
      modifies this
      ensures Inv(Shared()) && Shared() == Step(old(Shared()), Op.Insert(w, k, value))
      ensures var table := old(Shared().Table(w, k)); h == A.Handle(table.NextIndex(), table.LiveGeneration(h.index))
    {
      hide Inv, Step, PlainStep, Views, Legal, A.State.Insert, World.SetNextId, World.Mutate;
      StepRefines(Shared(), Op.Insert(w, k, value));
      InsertStep(Shared(), w, k, value);
      var id := holders[w].nextId;
      h := InsertAt(w, k, value, id, (id + 1) % ID_LIMIT);
    }

    method InsertWithId(w: nat, k: nat, value: T, id: nat) returns (h: A.Handle)
      requires Inv(Shared()) && Legal(Views(Shared()), Op.Restore(w, k, value, id))
      modifies this
      ensures Inv(Shared()) && Shared() == Step(old(Shared()), Op.Restore(w, k, value, id))
      ensures var table := old(Shared().Table(w, k)); h == A.Handle(table.NextIndex(), table.LiveGeneration(h.index))
    {
      hide Inv, Step, PlainStep, Views, Legal, A.State.Insert, World.SetNextId, World.Mutate;
      StepRefines(Shared(), Op.Restore(w, k, value, id));
      RestoreStep(Shared(), w, k, value, id);
      var next := holders[w].nextId;
      if id >= next {
        next := (id + 1) % ID_LIMIT;
      }
      h := InsertAt(w, k, value, id, next);
    }

    method Erase(w: nat, k: nat, h: A.Handle)
      requires Inv(Shared()) && Legal(Views(Shared()), Op.Erase(w, k, h))
      modifies this
      ensures Inv(Shared()) && Shared() == Step(old(Shared()), Op.Erase(w, k, h))
    {
      StepRefines(Shared(), Op.Erase(w, k, h));
      TableExists(Shared(), w, k);
      hide Inv, A.State.Erase;
      var c := Write(w, k);
      heap := heap[c := heap[c].(arena := heap[c].arena.Erase(h))];
    }

    /** `*try_get(h) = value`, or nothing when `try_get` returns null. */
    method Edit(w: nat, k: nat, h: A.Handle, value: T) returns (found: bool)
      requires Inv(Shared()) && Legal(Views(Shared()), Op.Edit(w, k, h, value))
      modifies this
      ensures Inv(Shared()) && Shared() == Step(old(Shared()), Op.Edit(w, k, h, value))
      ensures found == old(Shared().Table(w, k)).Locates(h)
    {
      StepRefines(Shared(), Op.Edit(w, k, h, value));
      TableExists(Shared(), w, k);
      hide Inv, A.State.Edit;
      var c := Write(w, k);
      found := heap[c].arena.Locates(h);
      heap := heap[c := heap[c].(arena := heap[c].arena.Edit(h, value))];
    }

    /** Copying a tuple of shared pointers, one element after the other. */
    method AddOwners(tables: seq<nat>)
      requires forall k :: 0 <= k < |tables| ==> tables[k] in heap
      modifies this`heap
      ensures heap == old(Shared()).Share(tables)
    {
      for i := 0 to |tables|
        invariant heap == old(Shared()).Share(tables[..i])
      {
        var c := tables[i];
        CountExtends(tables, i);
        heap := heap[c := heap[c].(owners := heap[c].owners + 1)];
      }
      assert tables[..|tables|] == tables;
    }

    /** Destroying a tuple of shared pointers; the last owner frees the arena. */
    method RemoveOwners(tables: seq<nat>)
      requires forall c :: c in heap ==> heap[c].owners > 0 && heap[c].owners >= Count(tables, c)
      requires forall k :: 0 <= k < |tables| ==> tables[k] in heap
      modifies this`heap
      ensures heap == old(Shared()).Release(tables)
    {
      for i := 0 to |tables|
        invariant heap == old(Shared()).Release(tables[..i])
      {
        var c := tables[i];
        ReleaseStep(old(Shared()), tables, i);
        heap := heap[c := heap[c].(owners := heap[c].owners - 1)];
        if heap[c].owners == 0 {
          heap := heap - {c};
        }
      }
      assert tables[..|tables|] == tables;
    }

    /** `Workspace()`: one new arena per component. */
    method Open(kinds: nat)
      requires Inv(Shared())
      modifies this
      ensures Inv(Shared()) && Shared() == Step(old(Shared()), Op.Open(kinds))
    {
      StepRefines(Shared(), Op.Open(kinds));
      hide Inv, Views, PlainStep, World.Opened;
      var tables := NewTables(kinds, true);
      holders := holders + [Holder(true, 0, 1, tables)];
    }

    /** `Snapshot()`: the same, with the default-constructed allocator. */
    method Blank(kinds: nat)
      requires Inv(Shared())
      modifies this
      ensures Inv(Shared()) && Shared() == Step(old(Shared()), Op.Blank(kinds))
    {
      StepRefines(Shared(), Op.Blank(kinds));
      hide Inv, Views, PlainStep, World.Opened;
      var tables := NewTables(kinds, false);
      holders := holders + [Holder(false, 0, 0, tables)];
    }

    /** The default constructors of a tuple of `CowTable`s. */
    method NewTables(kinds: nat, ghost mutable: bool) returns (tables: seq<nat>)
      modifies this
      ensures var after := old(Shared()).Opened(kinds, mutable);
              Shared() == World(after.heap, after.nextCell, old(holders))
              && after.holders == old(holders) + [Holder(mutable, 0, FirstId(mutable), tables)]
    {
      ghost var before := Shared();
      OpenedShape(before, kinds, mutable);
      hide World.Opened, FreshCells;
      OpenedNothing(before, mutable);
      tables := [];
      for k := 0 to kinds
        invariant nextCell == before.nextCell + k && holders == before.holders
        invariant tables == FreshCells(before.nextCell, k)
        invariant heap == before.Opened(k, mutable).heap
      {
        OpenedStep(before, k, mutable);
        heap := heap[nextCell := Cell(A.State([], [], map[]), 1)];
        tables := tables + [nextCell];
        nextCell := nextCell + 1;
      }
    }

    /** `Workspace(const Snapshot&)`. */
    method OpenFrom(s: nat)
      requires Inv(Shared()) && Legal(Views(Shared()), Op.OpenFrom(s))
      modifies this
      ensures Inv(Shared()) && Shared() == Step(old(Shared()), Op.OpenFrom(s))
    {
      StepRefines(Shared(), Op.OpenFrom(s));
      var h := holders[s];
      AddOwners(h.tables);
      hide Inv;
      holders := holders + [h.(mutable := true)];
    }

    method Commit(w: nat)
      requires Inv(Shared()) && Legal(Views(Shared()), Op.Commit(w))
      modifies this
      ensures Inv(Shared()) && Shared() == Step(old(Shared()), Op.Commit(w))
    {
      StepRefines(Shared(), Op.Commit(w));
      AddOwners(holders[w].tables);
      hide Inv;
      holders := holders[w := holders[w].(version := holders[w].version + 1)];
      holders := holders + [holders[w].(mutable := false)];
    }

    /** The destructor of a workspace or snapshot. */
    method Drop(s: nat)
      requires Inv(Shared()) && Legal(Views(Shared()), Op.Drop(s))
      modifies this
      ensures Inv(Shared()) && Shared() == Step(old(Shared()), Op.Drop(s))
    {
      StepRefines(Shared(), Op.Drop(s));
      forall c | c in heap
        ensures heap[c].owners > 0 && heap[c].owners >= Count(holders[s].tables, c)
      {
        RefsCounted(holders, s, c);
      }
      RemoveOwners(holders[s].tables);
      hide Inv;
      holders := holders[s := Closed];
    }
  }

  lemma TableExists<T>(w: World<T>, i: nat, k: nat)
    requires Inv(w) && Writable(Views(w), i, k)
    ensures w.HasTable(i, k)
  {}

  /** The steps of the shared form that insert, by what they write. */
  lemma InsertStep<T>(s: World<T>, w: nat, k: nat, value: T)
    requires Inv(s) && Legal(Views(s), Op.Insert(w, k, value))
    ensures s.HasTable(w, k)
    ensures var id := s.holders[w].nextId;
            Step(s, Op.Insert(w, k, value))
            == s.SetNextId(w, (id + 1) % ID_LIMIT).Mutate(w, k, s.Table(w, k).Insert(value, id))
  {
    hide A.State.Insert;
  }

  lemma RestoreStep<T>(s: World<T>, w: nat, k: nat, value: T, id: nat)
    requires Inv(s) && Legal(Views(s), Op.Restore(w, k, value, id))
    ensures s.HasTable(w, k)
    ensures var next := s.holders[w].nextId;
            Step(s, Op.Restore(w, k, value, id))
            == s.SetNextId(w, if id >= next then (id + 1) % ID_LIMIT else next)
                .Mutate(w, k, s.Table(w, k).Insert(value, id))
  {
    hide A.State.Insert;
  }

  lemma OpenedShape<T>(w: World<T>, k: nat, mutable: bool)
    ensures w.Opened(k, mutable) == World(w.Opened(k, mutable).heap, w.nextCell + k,
                                          w.holders + [Holder(mutable, 0, FirstId(mutable), FreshCells(w.nextCell, k))])
  {}

  lemma OpenedNothing<T>(w: World<T>, mutable: bool)
    ensures w.Opened(0, mutable).heap == w.heap && FreshCells(w.nextCell, 0) == []
  {}

  lemma OpenedStep<T>(w: World<T>, k: nat, mutable: bool)
    ensures w.Opened(k + 1, mutable).heap
            == w.Opened(k, mutable).heap[w.nextCell + k := Cell(A.State([], [], map[]), 1)]
    ensures FreshCells(w.nextCell, k + 1) == FreshCells(w.nextCell, k) + [w.nextCell + k]
  {
    FreshCellsStep(w.nextCell, k);
    hide FreshCells;
  }

  lemma FreshCellsStep(first: nat, k: nat)
    ensures FreshCells(first, k + 1) == FreshCells(first, k) + [first + k]
  {}

  /** One more element destroyed: its cell loses an owner, and goes when that was the last. */
  lemma ReleaseStep<T>(w: World<T>, tables: seq<nat>, i: nat)
    requires i < |tables| && tables[i] in w.heap && w.heap[tables[i]].owners >= Count(tables, tables[i])
    ensures var c, heap := tables[i], w.Release(tables[..i]);
            && c in heap
            && var cell := heap[c].(owners := heap[c].owners - 1);
               w.Release(tables[..i + 1]) == if cell.owners == 0 then heap - {c} else heap[c := cell]
  {
    CountExtends(tables, i);
    CountPrefix(tables, i + 1, tables[i]);
    hide Count, World.Release;
    ReleaseOne(w, tables[..i], tables[..i + 1], tables[i]);
  }

  lemma ReleaseOne<T>(w: World<T>, fewer: seq<nat>, more: seq<nat>, c: nat)
    requires forall d: nat :: Count(more, d) == Count(fewer, d) + if c == d then 1 else 0
    requires c in w.heap && w.heap[c].owners > Count(fewer, c)
    ensures var heap := w.Release(fewer);
            && c in heap
            && var cell := heap[c].(owners := heap[c].owners - 1);
               w.Release(more) == if cell.owners == 0 then heap - {c} else heap[c := cell]
  {
    hide Count, World.Release;
    var before, after := w.Release(fewer), w.Release(more);
    forall d: nat
      ensures ReleasedAt(w, fewer, d) && ReleasedAt(w, more, d)
    {
      ReleaseAt(w, fewer, d);
      ReleaseAt(w, more, d);
    }
    assert ReleasedAt(w, fewer, c);
    var cell := before[c].(owners := before[c].owners - 1);
    var expected := if cell.owners == 0 then before - {c} else before[c := cell];
    forall d: nat
      ensures d in after <==> d in expected
      ensures d in after ==> after[d] == expected[d]
    {
      assert ReleasedAt(w, fewer, d) && ReleasedAt(w, more, d);
    }
    assert after == expected;
  }

  ghost predicate ReleasedAt<T>(w: World<T>, tables: seq<nat>, d: nat) {
    && (d in w.Release(tables) <==> d in w.heap && w.heap[d].owners > Count(tables, d))
    && (d in w.Release(tables) ==> w.Release(tables)[d] == w.heap[d].(owners := w.heap[d].owners - Count(tables, d)))
  }

  lemma ReleaseAt<T>(w: World<T>, tables: seq<nat>, d: nat)
    ensures ReleasedAt(w, tables, d)
  {}

  lemma CountExtends(s: seq<nat>, i: nat)
    requires i < |s|
    ensures forall c :: Count(s[..i + 1], c) == Count(s[..i], c) + if s[i] == c then 1 else 0
  {
    assert s[..i + 1][..i] == s[..i];
  }

  lemma {:induction false} CountPrefix(s: seq<nat>, i: nat, c: nat)
    requires i <= |s|
    ensures Count(s[..i], c) <= Count(s, c)
  {
    if i < |s| {
      CountPrefix(s[..|s| - 1], i, c);
      assert s[..|s| - 1][..i] == s[..i];
    } else {
      assert s[..i] == s;
    }
  }
}
