/** `CowTable`, `Workspace` and `Snapshot`: component tables shared by reference
    count and cloned on the first write while shared. */
module Workspaces {
  import opened Wrappers
  import opened Arenas

  /** Entity ids are 64-bit counters; 0 is the null id. */
  const ID_LIMIT: nat := 0x1_0000_0000_0000_0000

  // ------------------------------------------------ the simple form: plain values

  /** What a workspace or snapshot shows its user. */
  datatype View<T> = View(mutable: bool, version: nat, nextId: nat, tables: seq<State<T>>) {

    function Put(k: nat, table: State<T>): View<T>
      requires k < |tables|
    {
      View(mutable, version, nextId, tables[k := table])
    }

    /** An insertion under `id` that leaves the allocator at `next`. */
    function Inserted(k: nat, value: T, id: nat, next: nat): View<T>
      requires k < |tables|
    {
      View(mutable, version, next, tables[k := tables[k].Insert(value, id)])
    }

    /** `insert_with_id` on the allocator: past `id`, if it is not past it already. */
    function NextAfter(id: nat): nat { if id >= nextId then (id + 1) % ID_LIMIT else nextId }

    /** Every live id is below the allocator, and no id is live in two tables. */
    ghost predicate IdsValid() {
      && nextId < ID_LIMIT
      && (forall k, id :: 0 <= k < |tables| && id in tables[k].idIndex ==> id < nextId)
      && (forall k, l, id :: 0 <= k < l < |tables| && id in tables[k].idIndex ==> id !in tables[l].idIndex)
    }

    ghost predicate Fresh(id: nat) { forall k :: 0 <= k < |tables| ==> id !in tables[k].idIndex }

    ghost predicate Valid() {
      IdsValid() && forall k :: 0 <= k < |tables| ==> tables[k].Valid()
    }
  }

  datatype Op<T> =
    | Open(kinds: nat)                                    // Workspace()
    | Blank(kinds: nat)                                   // Snapshot()
    | OpenFrom(source: nat)                               // Workspace(const Snapshot&)
    | Insert(w: nat, k: nat, value: T)
    | Restore(w: nat, k: nat, value: T, id: nat)          // insert_with_id
    | Erase(w: nat, k: nat, handle: Handle)
    | Edit(w: nat, k: nat, handle: Handle, value: T)      // *try_get(handle) = value
    | Commit(w: nat)
    | Drop(source: nat)

  /** The allocator of a default-constructed workspace skips the null id; that of a
      default-constructed snapshot is itself default-constructed, and so null. */
  function FirstId(mutable: bool): nat { if mutable then 1 else 0 }

  /** A store in which every holder owns private copies of all its tables. */
  type Plain<T> = seq<Option<View<T>>>

  predicate Holds<T>(p: Plain<T>, i: nat) { i < |p| && p[i].Some? }

  predicate Writable<T>(p: Plain<T>, w: nat, k: nat) {
    Holds(p, w) && p[w].value.mutable && k < |p[w].value.tables|
  }

  /** What each call demands: a holder of the right kind, a table that exists, for
      `insert_with_id` an id live in no table, and ids left to allocate. */
  ghost predicate Legal<T>(p: Plain<T>, op: Op<T>) {
    match op
    case Open(_) => true
    case Blank(_) => true
    case OpenFrom(s) => Holds(p, s) && !p[s].value.mutable
    case Insert(w, k, _) => Writable(p, w, k) && p[w].value.nextId < ID_LIMIT - 1
    case Restore(w, k, _, id) => Writable(p, w, k) && p[w].value.Fresh(id) && id < ID_LIMIT - 1
    case Erase(w, k, _) => Writable(p, w, k)
    case Edit(w, k, _, _) => Writable(p, w, k)
    case Commit(w) => Holds(p, w) && p[w].value.mutable
    case Drop(s) => Holds(p, s)
  }

  ghost predicate PlainValid<T>(p: Plain<T>) { forall i :: 0 <= i < |p| && p[i].Some? ==> p[i].value.Valid() }

  /** The simple form: every operation works on values and copies what it keeps. */
  ghost function PlainStep<T>(p: Plain<T>, op: Op<T>): Plain<T>
    requires PlainValid(p) && Legal(p, op)
  {
    match op
    case Open(kinds) => p + [Some(View(true, 0, FirstId(true), EmptyTables(kinds)))]
    case Blank(kinds) => p + [Some(View(false, 0, FirstId(false), EmptyTables(kinds)))]
    case OpenFrom(s) => p + [Some(p[s].value.(mutable := true))]
    case Insert(w, k, value) =>
      var v := p[w].value;
      p[w := Some(v.Inserted(k, value, v.nextId, (v.nextId + 1) % ID_LIMIT))]
    case Restore(w, k, value, id) =>
      var v := p[w].value;
      p[w := Some(v.Inserted(k, value, id, v.NextAfter(id)))]
    case Erase(w, k, h) =>
      var v := p[w].value;
      p[w := Some(v.Put(k, v.tables[k].Erase(h)))]
    case Edit(w, k, h, value) =>
      var v := p[w].value;
      p[w := Some(v.Put(k, v.tables[k].Edit(h, value)))]
    case Commit(w) =>
      var v := p[w].value.(version := p[w].value.version + 1);
      p[w := Some(v)] + [Some(v.(mutable := false))]
    case Drop(s) => p[s := None]
  }

  // --------------------------------------------- the shared form: a counted heap

  /** A `shared_ptr` target: the arena and its use count. */
  datatype Cell<T> = Cell(arena: State<T>, owners: nat)

  /** A workspace (`mutable`) or a snapshot; its tables are addresses of cells. */
  datatype Holder = Closed | Holder(mutable: bool, version: nat, nextId: nat, tables: seq<nat>)

  datatype World<T> = World(heap: map<nat, Cell<T>>, nextCell: nat, holders: seq<Holder>) {

    /** Adds one owner for every entry of `tables`: the copy of a tuple of shared pointers. */
    function Share(tables: seq<nat>): map<nat, Cell<T>> {
      map c | c in heap :: heap[c].(owners := heap[c].owners + Count(tables, c))
    }

    /** Takes the owners away again; a cell nobody owns is freed. */
    function Release(tables: seq<nat>): map<nat, Cell<T>> {
      map c | c in heap && heap[c].owners > Count(tables, c) ::
        heap[c].(owners := heap[c].owners - Count(tables, c))
    }

    predicate HasTable(w: nat, k: nat) {
      && w < |holders| && holders[w].Holder?
      && k < |holders[w].tables| && holders[w].tables[k] in heap
    }

    function Table(w: nat, k: nat): State<T>
      requires HasTable(w, k)
    {
      heap[holders[w].tables[k]].arena
    }

    /** `CowTable::write`: clone first if anyone else owns the arena. */
    function Write(w: nat, k: nat): (r: World<T>)
      requires HasTable(w, k)
      ensures r.HasTable(w, k) && r.Table(w, k) == Table(w, k)
      ensures |r.holders| == |holders|
    {
      var c := holders[w].tables[k];
      var cell := heap[c];
      if cell.owners > 1 then
        World(heap[c := cell.(owners := cell.owners - 1)][nextCell := Cell(cell.arena, 1)],
              nextCell + 1,
              holders[w := holders[w].(tables := holders[w].tables[k := nextCell])])
      else this
    }

    /** Overwrites the arena the (already private) table points at. */
    function Assign(w: nat, k: nat, arena: State<T>): World<T>
      requires HasTable(w, k)
    {
      var c := holders[w].tables[k];
      World(heap[c := heap[c].(arena := arena)], nextCell, holders)
    }

    function SetNextId(w: nat, id: nat): World<T>
      requires w < |holders| && holders[w].Holder?
    {
      World(heap, nextCell, holders[w := holders[w].(nextId := id)])
    }

    /** A workspace or snapshot over `kinds` new, empty, privately owned arenas. */
    function Opened(kinds: nat, mutable: bool): World<T> {
      var tables := FreshCells(nextCell, kinds);
      World(heap + (map c | c in tables :: Cell(State([], [], map[]), 1)),
            nextCell + kinds,
            holders + [Holder(mutable, 0, FirstId(mutable), tables)])
    }

    function Mutate(w: nat, k: nat, arena: State<T>): World<T>
      requires HasTable(w, k)
    {
      Write(w, k).Assign(w, k, arena)
    }
  }

  function Count(tables: seq<nat>, c: nat): nat {
    if tables == [] then 0
    else Count(tables[..|tables| - 1], c) + if tables[|tables| - 1] == c then 1 else 0
  }

  function Refs(h: Holder, c: nat): nat { if h.Holder? then Count(h.tables, c) else 0 }

  /** How often all holders together reference the cell `c`. */
  function AllRefs(hs: seq<Holder>, c: nat): nat {
    if hs == [] then 0 else AllRefs(hs[..|hs| - 1], c) + Refs(hs[|hs| - 1], c)
  }

  /** Use counts are exactly the references that exist; nothing dangles, nothing leaks. */
  ghost predicate CountsExact<T>(w: World<T>) {
    && (forall c: nat :: c in w.heap <==> AllRefs(w.holders, c) > 0)
    && (forall c :: c in w.heap ==> w.heap[c].owners == AllRefs(w.holders, c))
    && (forall c :: c in w.heap ==> c < w.nextCell)
  }

  predicate NoDangling<T>(w: World<T>) {
    forall i, k :: 0 <= i < |w.holders| && w.holders[i].Holder? && 0 <= k < |w.holders[i].tables| ==>
      w.holders[i].tables[k] in w.heap
  }

  function ViewOf<T>(w: World<T>, h: Holder): Option<View<T>>
    requires h.Holder? ==> forall k :: 0 <= k < |h.tables| ==> h.tables[k] in w.heap
  {
    match h
    case Closed => None
    case Holder(m, v, n, tables) =>
      Some(View(m, v, n, seq(|tables|, k requires 0 <= k < |tables| => w.heap[tables[k]].arena)))
  }

  /** What all holders see. */
  function Views<T>(w: World<T>): (p: Plain<T>)
    requires NoDangling(w)
    ensures |p| == |w.holders|
    ensures forall i :: 0 <= i < |p| ==> p[i] == ViewOf(w, w.holders[i])
  {
    seq(|w.holders|, i requires 0 <= i < |w.holders| => ViewOf(w, w.holders[i]))
  }

  ghost predicate Counted<T>(w: World<T>) { CountsExact(w) && NoDangling(w) }

  ghost predicate Inv<T>(w: World<T>) { Counted(w) && PlainValid(Views(w)) }

  /** Fresh addresses for the tables of a default-constructed workspace. */
  function FreshCells(first: nat, kinds: nat): (cs: seq<nat>)
    ensures |cs| == kinds && forall k :: 0 <= k < kinds ==> cs[k] == first + k
  {
    seq(kinds, (k: nat) => first + k)
  }

  ghost function Step<T>(w: World<T>, op: Op<T>): World<T>
    requires NoDangling(w) && PlainValid(Views(w)) && Legal(Views(w), op)
  {
    match op
    case Open(kinds) => w.Opened(kinds, true)
    case Blank(kinds) => w.Opened(kinds, false)
    case OpenFrom(s) =>
      var h := w.holders[s];
      World(w.Share(h.tables), w.nextCell, w.holders + [h.(mutable := true)])
    case Insert(i, k, value) =>
      var id := w.holders[i].nextId;
      w.SetNextId(i, (id + 1) % ID_LIMIT).Mutate(i, k, w.Table(i, k).Insert(value, id))
    case Restore(i, k, value, id) =>
      w.SetNextId(i, Views(w)[i].value.NextAfter(id)).Mutate(i, k, w.Table(i, k).Insert(value, id))
    case Erase(i, k, h) => w.Mutate(i, k, w.Table(i, k).Erase(h))
    case Edit(i, k, h, value) => w.Mutate(i, k, w.Table(i, k).Edit(h, value))
    case Commit(i) =>
      var h := w.holders[i].(version := w.holders[i].version + 1);
      World(w.Share(h.tables), w.nextCell, w.holders[i := h] + [h.(mutable := false)])
    case Drop(s) =>
      World(w.Release(w.holders[s].tables), w.nextCell, w.holders[s := Closed])
  }

  // ---------------------------------------------------------- reference counting

  lemma {:induction false} CountUpdate(s: seq<nat>, k: nat, v: nat, c: nat)
    requires k < |s|
    ensures Count(s[k := v], c) + (if s[k] == c then 1 else 0) == Count(s, c) + (if v == c then 1 else 0)
  {
    var last := |s| - 1;
    var s' := s[k := v];
    if k == last {
      assert s'[..last] == s[..last];
    } else {
      CountUpdate(s[..last], k, v, c);
      assert s'[..last] == s[..last][k := v];
    }
  }

  lemma CountElement(s: seq<nat>, k: nat)
    requires k < |s|
    ensures Count(s, s[k]) >= 1
  {
    CountUpdate(s, k, s[k] + 1, s[k]);
  }

  lemma {:induction false} CountWitness(s: seq<nat>, c: nat)
    ensures Count(s, c) > 0 <==> c in s
  {
    if s != [] {
      CountWitness(s[..|s| - 1], c);
      assert s == s[..|s| - 1] + [s[|s| - 1]];
    }
  }

  lemma CountTwice(s: seq<nat>, k: nat, l: nat)
    requires k < |s| && l < |s| && k != l && s[k] == s[l]
    ensures Count(s, s[k]) >= 2
  {
    CountUpdate(s, k, s[k] + 1, s[k]);
    CountElement(s[k := s[k] + 1], l);
  }

  lemma {:induction false} AllRefsUpdate(hs: seq<Holder>, i: nat, h: Holder, c: nat)
    requires i < |hs|
    ensures AllRefs(hs[i := h], c) + Refs(hs[i], c) == AllRefs(hs, c) + Refs(h, c)
  {
    hide Refs;
    var last := |hs| - 1;
    var hs' := hs[i := h];
    if i == last {
      assert hs'[..last] == hs[..last];
    } else {
      AllRefsUpdate(hs[..last], i, h, c);
      assert hs'[..last] == hs[..last][i := h];
    }
  }

  lemma AllRefsAppend(hs: seq<Holder>, h: Holder, c: nat)
    ensures AllRefs(hs + [h], c) == AllRefs(hs, c) + Refs(h, c)
  {
    assert (hs + [h])[..|hs|] == hs;
  }

  lemma RefsCounted(hs: seq<Holder>, i: nat, c: nat)
    requires i < |hs|
    ensures Refs(hs[i], c) <= AllRefs(hs, c)
  {
    AllRefsUpdate(hs, i, Closed, c);
  }

  /** Two different references to one cell make its count at least two. */
  lemma TwoReferences(hs: seq<Holder>, i: nat, k: nat, j: nat, l: nat)
    requires i < |hs| && hs[i].Holder? && k < |hs[i].tables|
    requires j < |hs| && hs[j].Holder? && l < |hs[j].tables|
    requires (i, k) != (j, l) && hs[i].tables[k] == hs[j].tables[l]
    ensures AllRefs(hs, hs[i].tables[k]) >= 2
  {
    var c := hs[i].tables[k];
    if i == j {
      CountTwice(hs[i].tables, k, l);
      RefsCounted(hs, i, c);
    } else {
      AllRefsUpdate(hs, i, Closed, c);
      RefsCounted(hs[i := Closed], j, c);
      CountElement(hs[i].tables, k);
      CountElement(hs[j].tables, l);
    }
  }

  /** Exact counts leave nothing dangling. */
  lemma ExactMeansNoDangling<T>(w: World<T>)
    requires CountsExact(w)
    ensures NoDangling(w)
  {
    forall i, k | 0 <= i < |w.holders| && w.holders[i].Holder? && 0 <= k < |w.holders[i].tables|
      ensures w.holders[i].tables[k] in w.heap
    {
      CountElement(w.holders[i].tables, k);
      RefsCounted(w.holders, i, w.holders[i].tables[k]);
    }
  }

  /** Two holders with the same header whose tables show the same arenas show the same view. */
  lemma SameView<T>(w: World<T>, h: Holder, w': World<T>, h': Holder)
    requires h.Holder? ==> forall k :: 0 <= k < |h.tables| ==> h.tables[k] in w.heap
    requires h.Holder? <==> h'.Holder?
    requires h.Holder? ==> h'.mutable == h.mutable && h'.version == h.version && h'.nextId == h.nextId
    requires h.Holder? ==> |h'.tables| == |h.tables|
    requires h.Holder? ==> forall k :: 0 <= k < |h.tables| ==>
               h'.tables[k] in w'.heap && w'.heap[h'.tables[k]].arena == w.heap[h.tables[k]].arena
    ensures ViewOf(w', h') == ViewOf(w, h)
  {
    if h.Holder? {
      assert ViewOf(w', h').value.tables == ViewOf(w, h).value.tables;
    }
  }

  /** `write` changes nothing anybody sees, and afterwards the table is private. */
  lemma WriteIsInvisible<T>(w: World<T>, i: nat, k: nat)
    requires Counted(w) && w.HasTable(i, k)
    ensures var w' := w.Write(i, k);
            Counted(w') && Views(w') == Views(w) && w'.heap[w'.holders[i].tables[k]].owners == 1
  {
    var w' := w.Write(i, k);
    var c := w.holders[i].tables[k];
    if w.heap[c].owners > 1 {
      WriteCounts(w, i, k);
      ExactMeansNoDangling(w');
      hide CountsExact;
      forall j | 0 <= j < |w.holders|
        ensures ViewOf(w', w'.holders[j]) == ViewOf(w, w.holders[j])
      {
        SameView(w, w.holders[j], w', w'.holders[j]);
      }
      assert Views(w') == Views(w);
    }
  }

  /** A table that nobody else holds is written in place, and a shared one is copied into a new object. */
  lemma WriteCopiesIffShared<T>(w: World<T>, i: nat, k: nat)
    requires Counted(w) && w.HasTable(i, k)
    ensures var c := w.holders[i].tables[k];
            && (w.heap[c].owners == 1 <==> w.Write(i, k) == w)
            && (w.heap[c].owners > 1 ==> w.Write(i, k).holders[i].tables[k] !in w.heap)
  {
    CountElement(w.holders[i].tables, k);
    RefsCounted(w.holders, i, w.holders[i].tables[k]);
    if w.heap[w.holders[i].tables[k]].owners > 1 {
      WriteCounts(w, i, k);
    }
  }

  lemma WriteCounts<T>(w: World<T>, i: nat, k: nat)
    requires Counted(w) && w.HasTable(i, k)
    requires w.heap[w.holders[i].tables[k]].owners > 1
    ensures CountsExact(w.Write(i, k))
    ensures w.Write(i, k).heap.Keys == w.heap.Keys + {w.nextCell} && w.nextCell !in w.heap
  {
    var w' := w.Write(i, k);
    var h := w.holders[i];
    forall c: nat
      ensures AllRefs(w'.holders, c) + (if h.tables[k] == c then 1 else 0)
              == AllRefs(w.holders, c) + (if w.nextCell == c then 1 else 0)
    {
      CountUpdate(h.tables, k, w.nextCell, c);
      AllRefsUpdate(w.holders, i, w'.holders[i], c);
    }
    assert AllRefs(w.holders, w.nextCell) == 0;
  }

  /** Overwriting a private arena changes one table of one holder. */
  lemma AssignIsLocal<T>(w: World<T>, i: nat, k: nat, arena: State<T>)
    requires Counted(w) && w.HasTable(i, k)
    requires w.heap[w.holders[i].tables[k]].owners == 1
    ensures var w' := w.Assign(i, k, arena);
            Counted(w') && Views(w') == Views(w)[i := Some(Views(w)[i].value.Put(k, arena))]
  {
    var w' := w.Assign(i, k, arena);
    var c := w.holders[i].tables[k];
    forall j | 0 <= j < |w.holders|
      ensures Views(w')[j] == Views(w)[i := Some(Views(w)[i].value.Put(k, arena))][j]
    {
      forall l | w.holders[j].Holder? && 0 <= l < |w.holders[j].tables| && (j, l) != (i, k)
        ensures w.holders[j].tables[l] != c
      {
        if w.holders[j].tables[l] == c {
          TwoReferences(w.holders, i, k, j, l);
          assert false;
        }
      }
      if j == i {
        assert ViewOf(w', w'.holders[i]).value.tables == ViewOf(w, w.holders[i]).value.tables[k := arena];
      } else {
        SameView(w, w.holders[j], w', w'.holders[j]);
      }
    }
  }

  lemma MutateRefines<T>(w: World<T>, i: nat, k: nat, arena: State<T>)
    requires Counted(w) && w.HasTable(i, k)
    ensures var w' := w.Mutate(i, k, arena);
            Counted(w') && Views(w') == Views(w)[i := Some(Views(w)[i].value.Put(k, arena))]
  {
    WriteIsInvisible(w, i, k);
    hide Counted;
    AssignIsLocal(w.Write(i, k), i, k, arena);
  }

  lemma SetNextIdRefines<T>(w: World<T>, i: nat, id: nat)
    requires Counted(w) && i < |w.holders| && w.holders[i].Holder?
    ensures var w' := w.SetNextId(i, id);
            Counted(w') && Views(w') == Views(w)[i := Some(Views(w)[i].value.(nextId := id))]
  {
    var w' := w.SetNextId(i, id);
    forall c: nat
      ensures AllRefs(w'.holders, c) == AllRefs(w.holders, c)
    {
      AllRefsUpdate(w.holders, i, w'.holders[i], c);
    }
    hide AllRefs;
    ExactMeansNoDangling(w');
    assert Views(w') == Views(w)[i := Some(Views(w)[i].value.(nextId := id))];
  }

  /** A new holder of existing tables: every use count grows by the references added. */
  lemma ShareRefines<T>(w: World<T>, h: Holder)
    requires Counted(w) && h.Holder?
    requires forall k :: 0 <= k < |h.tables| ==> h.tables[k] in w.heap
    ensures var w' := World(w.Share(h.tables), w.nextCell, w.holders + [h]);
            Counted(w') && Views(w') == Views(w) + [ViewOf(w, h)]
  {
    var w' := World(w.Share(h.tables), w.nextCell, w.holders + [h]);
    forall c: nat
      ensures AllRefs(w'.holders, c) == AllRefs(w.holders, c) + Count(h.tables, c)
      ensures Count(h.tables, c) > 0 ==> c in w.heap
    {
      AllRefsAppend(w.holders, h, c);
      CountWitness(h.tables, c);
    }
    hide AllRefs;
    ExactMeansNoDangling(w');
    forall j | 0 <= j < |w'.holders|
      ensures Views(w')[j] == (Views(w) + [ViewOf(w, h)])[j]
    {
      SameView(w, w'.holders[j], w', w'.holders[j]);
    }
  }

  lemma ReleaseRefines<T>(w: World<T>, s: nat)
    requires Counted(w) && s < |w.holders| && w.holders[s].Holder?
    ensures var w' := World(w.Release(w.holders[s].tables), w.nextCell, w.holders[s := Closed]);
            Counted(w') && Views(w') == Views(w)[s := None]
  {
    var w' := World(w.Release(w.holders[s].tables), w.nextCell, w.holders[s := Closed]);
    forall c: nat
      ensures AllRefs(w'.holders, c) + Count(w.holders[s].tables, c) == AllRefs(w.holders, c)
    {
      AllRefsUpdate(w.holders, s, Closed, c);
    }
    hide AllRefs;
    ExactMeansNoDangling(w');
    forall j | 0 <= j < |w'.holders|
      ensures Views(w')[j] == Views(w)[s := None][j]
    {
      if j != s {
        SameView(w, w.holders[j], w', w'.holders[j]);
      }
    }
  }

  lemma {:induction false} FreshCellsCount(first: nat, kinds: nat, c: nat)
    ensures Count(FreshCells(first, kinds), c) == if first <= c < first + kinds then 1 else 0
  {
    if kinds > 0 {
      FreshCellsCount(first, kinds - 1, c);
      assert FreshCells(first, kinds)[..kinds - 1] == FreshCells(first, kinds - 1);
    }
  }

  lemma OpenCounts<T>(w: World<T>, kinds: nat, mutable: bool)
    requires Counted(w)
    ensures CountsExact(w.Opened(kinds, mutable))
    ensures forall k :: 0 <= k < kinds ==> FreshCells(w.nextCell, kinds)[k] !in w.heap
  {
    var w' := w.Opened(kinds, mutable);
    var tables := FreshCells(w.nextCell, kinds);
    forall c: nat
      ensures AllRefs(w'.holders, c) == AllRefs(w.holders, c) + if w.nextCell <= c < w.nextCell + kinds then 1 else 0
      ensures c in tables <==> w.nextCell <= c < w.nextCell + kinds
    {
      AllRefsAppend(w.holders, Holder(mutable, 0, FirstId(mutable), tables), c);
      FreshCellsCount(w.nextCell, kinds, c);
      CountWitness(tables, c);
    }
  }

  function EmptyTables<T>(kinds: nat): seq<State<T>> { seq(kinds, _ => State([], [], map[])) }

  lemma OpenRefines<T>(w: World<T>, kinds: nat, mutable: bool)
    requires Counted(w)
    ensures var w' := w.Opened(kinds, mutable);
            Counted(w') && Views(w') == Views(w) + [Some(View(mutable, 0, FirstId(mutable), EmptyTables(kinds)))]
  {
    var w' := w.Opened(kinds, mutable);
    OpenCounts(w, kinds, mutable);
    ExactMeansNoDangling(w');
    hide CountsExact;
    forall j | 0 <= j < |w.holders|
      ensures Views(w')[j] == Views(w)[j]
    {
      SameView(w, w.holders[j], w', w'.holders[j]);
    }
    var h := w'.holders[|w.holders|];
    assert ViewOf(w', h).value.tables == EmptyTables(kinds);
    assert Views(w')[|w.holders|] == Some(View(mutable, 0, FirstId(mutable), EmptyTables(kinds)));
  }

  // -------------------------------------------------------------- the refinement

  /** The allocator ends past every live id exactly when the new id is not the last one. */
  lemma InsertedIdsValid<T>(v: View<T>, k: nat, value: T, id: nat)
    requires v.Valid() && v.Fresh(id) && k < |v.tables| && id < ID_LIMIT
    ensures v.Inserted(k, value, id, v.NextAfter(id)).IdsValid() <==> id < ID_LIMIT - 1
  {
    hide State.Valid;
    var v' := v.Inserted(k, value, id, v.NextAfter(id));
    if id == ID_LIMIT - 1 {
      assert id in v'.tables[k].idIndex && v'.nextId == 0;
    }
  }

  lemma InsertedValid<T>(v: View<T>, k: nat, value: T, id: nat)
    requires v.Valid() && v.Fresh(id) && k < |v.tables| && id < ID_LIMIT - 1
    ensures v.Inserted(k, value, id, v.NextAfter(id)).Valid()
  {
    InsertedIdsValid(v, k, value, id);
    InsertKeepsValid(v.tables[k], value, id);
    hide State.Valid, View.IdsValid;
  }

  lemma PutValid<T>(v: View<T>, k: nat, table: State<T>)
    requires v.Valid() && k < |v.tables| && table.Valid()
    requires table.idIndex.Keys <= v.tables[k].idIndex.Keys
    ensures v.Put(k, table).Valid()
  {
    hide State.Valid;
    assert forall id :: id in table.idIndex ==> id in v.tables[k].idIndex;
  }

  lemma PlainUpdateValid<T>(p: Plain<T>, w: nat, v: Option<View<T>>)
    requires PlainValid(p) && w < |p| && (v.Some? ==> v.value.Valid())
    ensures PlainValid(p[w := v])
  {
    hide View.Valid;
  }

  lemma PlainAppendValid<T>(p: Plain<T>, v: View<T>)
    requires PlainValid(p) && v.Valid()
    ensures PlainValid(p + [Some(v)])
  {
    hide View.Valid;
  }

  lemma HeaderValid<T>(v: View<T>, mutable: bool, version: nat)
    requires v.Valid()
    ensures View(mutable, version, v.nextId, v.tables).Valid()
  {
    hide State.Valid;
  }

  lemma EmptyViewValid<T>(kinds: nat, mutable: bool)
    ensures View<T>.View(mutable, 0, FirstId(mutable), EmptyTables(kinds)).Valid()
  {}

  lemma ErasedValid<T>(v: View<T>, k: nat, h: Handle)
    requires v.Valid() && k < |v.tables|
    ensures v.Put(k, v.tables[k].Erase(h)).Valid()
  {
    EraseKeepsValid(v.tables[k], h);
    PutValid(v, k, v.tables[k].Erase(h));
  }

  lemma EditedValid<T>(v: View<T>, k: nat, h: Handle, value: T)
    requires v.Valid() && k < |v.tables|
    ensures v.Put(k, v.tables[k].Edit(h, value)).Valid()
  {
    EditKeepsValid(v.tables[k], h, value);
    PutValid(v, k, v.tables[k].Edit(h, value));
  }

  lemma PlainInsertValid<T>(p: Plain<T>, w: nat, k: nat, value: T, id: nat)
    requires PlainValid(p) && Writable(p, w, k) && p[w].value.Fresh(id) && id < ID_LIMIT - 1
    ensures PlainValid(p[w := Some(p[w].value.Inserted(k, value, id, p[w].value.NextAfter(id)))])
  {
    InsertedValid(p[w].value, k, value, id);
    hide View.Valid, View.Inserted;
    PlainUpdateValid(p, w, Some(p[w].value.Inserted(k, value, id, p[w].value.NextAfter(id))));
  }

  lemma NextIdIsFresh<T>(v: View<T>)
    requires v.Valid()
    ensures v.Fresh(v.nextId)
    ensures v.NextAfter(v.nextId) == (v.nextId + 1) % ID_LIMIT
  {}

  lemma PlainWriteKeepsValid<T>(p: Plain<T>, op: Op<T>)
    requires PlainValid(p) && Legal(p, op)
    requires op.Insert? || op.Restore? || op.Erase? || op.Edit?
    ensures PlainValid(PlainStep(p, op))
  {
    hide View.Valid, View.Inserted, State.Erase, State.Edit, View.Fresh, View.NextAfter;
    match op
    case Insert(w, k, value) =>
      NextIdIsFresh(p[w].value);
      PlainInsertValid(p, w, k, value, p[w].value.nextId);
    case Restore(w, k, value, id) =>
      PlainInsertValid(p, w, k, value, id);
    case Erase(w, k, h) =>
      ErasedValid(p[w].value, k, h);
      PlainUpdateValid(p, w, Some(p[w].value.Put(k, p[w].value.tables[k].Erase(h))));
    case Edit(w, k, h, value) =>
      EditedValid(p[w].value, k, h, value);
      PlainUpdateValid(p, w, Some(p[w].value.Put(k, p[w].value.tables[k].Edit(h, value))));
  }

  lemma PlainShareKeepsValid<T>(p: Plain<T>, op: Op<T>)
    requires PlainValid(p) && Legal(p, op)
    requires op.Open? || op.Blank? || op.OpenFrom? || op.Commit? || op.Drop?
    ensures PlainValid(PlainStep(p, op))
  {
    hide View.Valid;
    match op
    case Open(kinds) =>
      EmptyViewValid<T>(kinds, true);
      PlainAppendValid(p, View(true, 0, FirstId(true), EmptyTables(kinds)));
    case Blank(kinds) =>
      EmptyViewValid<T>(kinds, false);
      PlainAppendValid(p, View(false, 0, FirstId(false), EmptyTables(kinds)));
    case OpenFrom(s) =>
      HeaderValid(p[s].value, true, p[s].value.version);
      PlainAppendValid(p, p[s].value.(mutable := true));
    case Commit(w) =>
      var v := p[w].value.(version := p[w].value.version + 1);
      HeaderValid(p[w].value, v.mutable, v.version);
      HeaderValid(p[w].value, false, v.version);
      PlainUpdateValid(p, w, Some(v));
      PlainAppendValid(p[w := Some(v)], v.(mutable := false));
    case Drop(s) =>
      PlainUpdateValid(p, s, None);
  }

  lemma PlainStepKeepsValid<T>(p: Plain<T>, op: Op<T>)
    requires PlainValid(p) && Legal(p, op)
    ensures PlainValid(PlainStep(p, op))
  {
    if op.Insert? || op.Restore? || op.Erase? || op.Edit? {
      PlainWriteKeepsValid(p, op);
    } else {
      PlainShareKeepsValid(p, op);
    }
    hide PlainValid, PlainStep, Legal;
  }

  /** An insertion on the shared store: set the allocator, then write and insert. */
  lemma InsertRefines<T>(w: World<T>, i: nat, k: nat, value: T, id: nat, next: nat)
    requires Counted(w) && w.HasTable(i, k)
    ensures var w' := w.SetNextId(i, next).Mutate(i, k, w.Table(i, k).Insert(value, id));
            Counted(w') && Views(w') == Views(w)[i := Some(Views(w)[i].value.Inserted(k, value, id, next))]
  {
    SetNextIdRefines(w, i, next);
    MutateRefines(w.SetNextId(i, next), i, k, w.Table(i, k).Insert(value, id));
    hide State.Insert, Counted, World.Mutate;
  }

  lemma WriteStepRefines<T>(w: World<T>, op: Op<T>)
    requires Inv(w) && Legal(Views(w), op)
    requires op.Insert? || op.Restore? || op.Erase? || op.Edit?
    ensures Counted(Step(w, op)) && Views(Step(w, op)) == PlainStep(Views(w), op)
  {
    hide CountsExact, World.Mutate, State.Insert, State.Erase, State.Edit, View.Inserted, View.Put;
    match op
    case Insert(i, k, value) =>
      InsertRefines(w, i, k, value, w.holders[i].nextId, (w.holders[i].nextId + 1) % ID_LIMIT);
    case Restore(i, k, value, id) =>
      InsertRefines(w, i, k, value, id, Views(w)[i].value.NextAfter(id));
    case Erase(i, k, h) => MutateRefines(w, i, k, w.Table(i, k).Erase(h));
    case Edit(i, k, h, value) => MutateRefines(w, i, k, w.Table(i, k).Edit(h, value));
  }

  lemma ShareStepRefines<T>(w: World<T>, op: Op<T>)
    requires Inv(w) && Legal(Views(w), op)
    requires op.Open? || op.Blank? || op.OpenFrom? || op.Commit? || op.Drop?
    ensures Counted(Step(w, op)) && Views(Step(w, op)) == PlainStep(Views(w), op)
  {
    hide CountsExact, World.Opened, World.Share, World.Release, PlainValid;
    match op
    case Open(kinds) => OpenRefines(w, kinds, true);
    case Blank(kinds) => OpenRefines(w, kinds, false);
    case OpenFrom(s) => ShareRefines(w, w.holders[s].(mutable := true));
    case Commit(i) => CommitRefines(w, i);
    case Drop(s) => ReleaseRefines(w, s);
  }

  /** Every operation on the shared store is the same operation on plain copies. */
  lemma StepRefines<T>(w: World<T>, op: Op<T>)
    requires Inv(w) && Legal(Views(w), op)
    ensures Inv(Step(w, op)) && Views(Step(w, op)) == PlainStep(Views(w), op)
  {
    PlainStepKeepsValid(Views(w), op);
    if op.Insert? || op.Restore? || op.Erase? || op.Edit? {
      WriteStepRefines(w, op);
    } else {
      ShareStepRefines(w, op);
    }
    hide PlainValid, CountsExact, Step, PlainStep, Legal;
  }

  lemma CommitRefines<T>(w: World<T>, i: nat)
    requires Counted(w) && i < |w.holders| && w.holders[i].Holder?
    ensures var h := w.holders[i].(version := w.holders[i].version + 1);
            var w' := World(w.Share(h.tables), w.nextCell, w.holders[i := h] + [h.(mutable := false)]);
            var v := Views(w)[i].value.(version := Views(w)[i].value.version + 1);
            Counted(w') && Views(w') == Views(w)[i := Some(v)] + [Some(v.(mutable := false))]
  {
    var h := w.holders[i].(version := w.holders[i].version + 1);
    var bumped := World(w.heap, w.nextCell, w.holders[i := h]);
    forall c: nat
      ensures AllRefs(bumped.holders, c) == AllRefs(w.holders, c)
    {
      AllRefsUpdate(w.holders, i, h, c);
    }
    ExactMeansNoDangling(bumped);
    ShareRefines(bumped, h.(mutable := false));
    var v := Views(w)[i].value.(version := Views(w)[i].value.version + 1);
    assert Views(bumped) == Views(w)[i := Some(v)];
  }

  /** The shared store after a history that starts with nothing, if every operation was legal. */
  ghost function AfterAll<T>(ops: seq<Op<T>>): (r: Option<World<T>>)
    ensures r.Some? ==> Inv(r.value)
  {
    if ops == [] then Some(World(map[], 0, []))
    else
      var last := |ops| - 1;
      var before := AfterAll(ops[..last]);
      if before.None? || !Legal(Views(before.value), ops[last]) then None
      else
        StepRefines(before.value, ops[last]);
        Some(Step(before.value, ops[last]))
  }

  ghost function PlainAfter<T>(ops: seq<Op<T>>): (r: Option<Plain<T>>)
    ensures r.Some? ==> PlainValid(r.value)
  {
    if ops == [] then Some([])
    else
      var last := |ops| - 1;
      var before := PlainAfter(ops[..last]);
      if before.None? || !Legal(before.value, ops[last]) then None
      else
        PlainStepKeepsValid(before.value, ops[last]);
        Some(PlainStep(before.value, ops[last]))
  }

  /** Over every run, what each holder sees is what it would see if nothing were
      shared; and every use count is exact, so nothing leaks. */
  lemma {:induction false} SharingIsInvisible<T>(ops: seq<Op<T>>)
    ensures AfterAll(ops).Some? <==> PlainAfter(ops).Some?
    ensures AfterAll(ops).Some? ==> Views(AfterAll(ops).value) == PlainAfter(ops).value
  {
    if ops != [] {
      var last := |ops| - 1;
      SharingIsInvisible(ops[..last]);
      var before := AfterAll(ops[..last]);
      if before.Some? && Legal(Views(before.value), ops[last]) {
        hide Step, PlainStep, Legal, Inv;
        StepRefines(before.value, ops[last]);
      }
    }
  }

  // ------------------------------------------------- what follows for every run

  predicate Writes<T>(op: Op<T>, w: nat, k: nat) {
    match op
    case Insert(i, l, _) => i == w && l == k
    case Restore(i, l, _, _) => i == w && l == k
    case Erase(i, l, _) => i == w && l == k
    case Edit(i, l, _, _) => i == w && l == k
    case _ => false
  }

  predicate Drops<T>(op: Op<T>, i: nat) { op.Drop? && op.source == i }

  /** The table of a holder keeps its arena through every operation that neither
      writes that table nor drops the holder. */
  lemma StepKeepsAddress<T>(w: World<T>, op: Op<T>, i: nat, k: nat)
    requires Inv(w) && Legal(Views(w), op)
    requires w.HasTable(i, k) && !Writes(op, i, k) && !Drops(op, i)
    ensures var w' := Step(w, op);
            && i < |w'.holders| && w'.holders[i].Holder? && w'.holders[i].mutable == w.holders[i].mutable
            && |w'.holders[i].tables| == |w.holders[i].tables|
            && w'.holders[i].tables[k] == w.holders[i].tables[k]
  {
    if op.Insert? || op.Restore? || op.Erase? || op.Edit? {
      WriteKeepsAddress(w, op, i, k);
    } else {
      hide CountsExact, PlainValid, World.Share, World.Release, World.Opened, FreshCells;
      if op.Open? {
        OpeningKeeps(w, op.kinds, true, i);
      } else if op.Blank? {
        OpeningKeeps(w, op.kinds, false, i);
      }
    }
  }

  lemma OpeningKeeps<T>(w: World<T>, kinds: nat, mutable: bool, i: nat)
    requires i < |w.holders|
    ensures i < |w.Opened(kinds, mutable).holders| && w.Opened(kinds, mutable).holders[i] == w.holders[i]
  {}

  lemma WriteKeepsAddress<T>(w: World<T>, op: Op<T>, i: nat, k: nat)
    requires Inv(w) && Legal(Views(w), op) && (op.Insert? || op.Restore? || op.Erase? || op.Edit?)
    requires w.HasTable(i, k) && !Writes(op, i, k)
    ensures var w' := Step(w, op);
            && i < |w'.holders| && w'.holders[i].Holder? && w'.holders[i].mutable == w.holders[i].mutable
            && |w'.holders[i].tables| == |w.holders[i].tables|
            && w'.holders[i].tables[k] == w.holders[i].tables[k]
  {
    hide CountsExact, PlainValid, State.Insert, State.Erase, State.Edit;
    assert w.HasTable(op.w, op.k);
  }

  /** The last step of a run. */
  lemma AfterLast<T>(ops: seq<Op<T>>, op: Op<T>)
    requires AfterAll(ops + [op]).Some?
    ensures var before := AfterAll(ops);
            && before.Some? && Legal(Views(before.value), op)
            && AfterAll(ops + [op]).value == Step(before.value, op)
  {
    assert (ops + [op])[..|ops + [op]| - 1] == ops;
  }

  /** The last step of a run that continues another one. */
  lemma AfterPrefix<T>(ops: seq<Op<T>>, more: seq<Op<T>>)
    requires more != [] && AfterAll(ops + more).Some?
    ensures var shorter := AfterAll(ops + more[..|more| - 1]);
            && shorter.Some? && Legal(Views(shorter.value), more[|more| - 1])
            && AfterAll(ops + more).value == Step(shorter.value, more[|more| - 1])
  {
    hide Step, Legal, Inv;
    var last := |more| - 1;
    assert ops + more == (ops + more[..last]) + [more[last]];
    AfterLast(ops + more[..last], more[last]);
  }

  lemma {:induction false} RunKeepsAddress<T>(ops: seq<Op<T>>, more: seq<Op<T>>, i: nat, k: nat)
    requires AfterAll(ops).Some? && AfterAll(ops + more).Some?
    requires AfterAll(ops).value.HasTable(i, k)
    requires forall op :: op in more ==> !Writes(op, i, k) && !Drops(op, i)
    ensures var w, w' := AfterAll(ops).value, AfterAll(ops + more).value;
            && w'.HasTable(i, k) && w'.holders[i].tables[k] == w.holders[i].tables[k]
            && w'.holders[i].mutable == w.holders[i].mutable
            && |w'.holders[i].tables| == |w.holders[i].tables|
  {
    if more == [] {
      assert ops + more == ops;
    } else {
      var last := |more| - 1;
      AfterPrefix(ops, more);
      RunKeepsAddress(ops, more[..last], i, k);
      hide Step, Legal;
      StepKeepsAddress(AfterAll(ops + more[..last]).value, more[last], i, k);
      assert Inv(AfterAll(ops + more).value);
    }
  }

  /** Tables not edited between two commits are one shared object in both snapshots. */
  lemma UneditedTablesAreShared<T>(ops: seq<Op<T>>, more: seq<Op<T>>, w: nat, k: nat)
    requires var run := ops + [Commit(w)] + more + [Commit(w)];
             && AfterAll(run).Some? && AfterAll(ops + [Commit(w)] + more).Some?
             && AfterAll(ops + [Commit(w)]).Some? && AfterAll(ops).Some?
    requires AfterAll(ops).value.HasTable(w, k)
    requires forall op :: op in more ==> !Writes(op, w, k) && !Drops(op, w)
    requires var first := |AfterAll(ops).value.holders|; forall op :: op in more ==> !Drops(op, first)
    ensures var first, second := |AfterAll(ops).value.holders|, |AfterAll(ops + [Commit(w)] + more).value.holders|;
            var end := AfterAll(ops + [Commit(w)] + more + [Commit(w)]).value;
            end.HasTable(first, k) && end.HasTable(second, k) &&
            end.holders[first].tables[k] == end.holders[second].tables[k]
  {
    var start, middle := AfterAll(ops).value, AfterAll(ops + [Commit(w)] + more).value;
    var first := |start.holders|;
    AfterLast(ops, Commit(w));
    CommitSharesTables(start, w, k);
    hide Step, Legal, Inv, AfterAll;
    SnapshotKept(ops + [Commit(w)], more, first, k);
    RunKeepsAddress(ops + [Commit(w)], more, w, k);
    AfterLast(ops + [Commit(w)] + more, Commit(w));
    CommitSharesTables(middle, w, k);
    assert middle.HasTable(first, k);
  }

  /** A commit hands the snapshot the workspace's own arenas and moves nobody else's. */
  lemma CommitSharesTables<T>(world: World<T>, w: nat, k: nat)
    requires Inv(world) && Legal(Views(world), Commit(w)) && world.HasTable(w, k)
    ensures var next, s := Step(world, Commit(w)), |world.holders|;
            && next.HasTable(w, k) && next.holders[w].tables[k] == world.holders[w].tables[k]
            && next.HasTable(s, k) && next.holders[s].tables[k] == world.holders[w].tables[k]
            && !next.holders[s].mutable && |next.holders| == s + 1
            && forall i :: 0 <= i < s && world.HasTable(i, k) ==>
                 next.HasTable(i, k) && next.holders[i].tables[k] == world.holders[i].tables[k]
  {}

  /** A snapshot is never written, so its tables keep their arenas until it is dropped. */
  lemma {:induction false} SnapshotKept<T>(ops: seq<Op<T>>, more: seq<Op<T>>, s: nat, k: nat)
    requires AfterAll(ops).Some? && AfterAll(ops + more).Some?
    requires AfterAll(ops).value.HasTable(s, k) && !AfterAll(ops).value.holders[s].mutable
    requires forall op :: op in more ==> !Drops(op, s)
    ensures var w, w' := AfterAll(ops).value, AfterAll(ops + more).value;
            && w'.HasTable(s, k) && w'.holders[s].tables[k] == w.holders[s].tables[k]
            && !w'.holders[s].mutable
  {
    if more == [] {
      assert ops + more == ops;
    } else {
      var last := |more| - 1;
      AfterPrefix(ops, more);
      SnapshotKept(ops, more[..last], s, k);
      var before := AfterAll(ops + more[..last]).value;
      SnapshotsAreNotWritten(before, more[last], s, k);
      hide Step, Legal;
      StepKeepsAddress(before, more[last], s, k);
      assert Inv(AfterAll(ops + more).value);
    }
  }

  lemma SnapshotsAreNotWritten<T>(w: World<T>, op: Op<T>, s: nat, k: nat)
    requires Inv(w) && Legal(Views(w), op)
    requires s < |w.holders| && w.holders[s].Holder? && !w.holders[s].mutable
    ensures !Writes(op, s, k)
  {}

  /** No operation on other holders, and no attempt to write it, changes what a snapshot shows. */
  lemma PlainSnapshotKept<T>(p: Plain<T>, op: Op<T>, s: nat)
    requires PlainValid(p) && Legal(p, op)
    requires Holds(p, s) && !p[s].value.mutable && !Drops(op, s)
    ensures Holds(PlainStep(p, op), s) && PlainStep(p, op)[s] == p[s]
  {}

  /** Snapshot isolation: whatever happens afterwards to any workspace, a committed
      snapshot shows exactly what it showed, for as long as it is held. */
  lemma {:induction false} SnapshotIsolation<T>(ops: seq<Op<T>>, more: seq<Op<T>>, s: nat)
    requires AfterAll(ops).Some? && AfterAll(ops + more).Some?
    requires Holds(Views(AfterAll(ops).value), s) && !Views(AfterAll(ops).value)[s].value.mutable
    requires forall op :: op in more ==> !Drops(op, s)
    ensures s < |AfterAll(ops + more).value.holders|
    ensures Views(AfterAll(ops + more).value)[s] == Views(AfterAll(ops).value)[s]
  {
    if more == [] {
      assert ops + more == ops;
    } else {
      var last := |more| - 1;
      AfterPrefix(ops, more);
      SnapshotIsolation(ops, more[..last], s);
      var before := AfterAll(ops + more[..last]).value;
      hide Step, PlainStep, Legal;
      StepRefines(before, more[last]);
      PlainSnapshotKept(Views(before), more[last], s);
    }
  }

  /** After every run, in every holder, no id is live in two tables and every live
      id is below the allocator; and each arena's own invariant holds. */
  lemma IdsNeverCollide<T>(ops: seq<Op<T>>, i: nat)
    requires AfterAll(ops).Some? && Holds(Views(AfterAll(ops).value), i)
    ensures Views(AfterAll(ops).value)[i].value.Valid()
  {}

  // ---------------------------------------------------------------- the version

  /** How often `w` is committed. */
  function Commits<T>(ops: seq<Op<T>>, w: nat): nat {
    if ops == [] then 0 else Commits(ops[..|ops| - 1], w) + if ops[|ops| - 1] == Commit(w) then 1 else 0
  }

  lemma StepKeepsVersion<T>(p: Plain<T>, op: Op<T>, w: nat)
    requires PlainValid(p) && Legal(p, op) && Holds(p, w) && !Drops(op, w)
    ensures Holds(PlainStep(p, op), w)
    ensures PlainStep(p, op)[w].value.version == p[w].value.version + if op == Commit(w) then 1 else 0
  {
    hide PlainValid;
  }

  /** The version of a holder that is not dropped counts its commits. */
  lemma {:induction false} VersionCountsCommits<T>(ops: seq<Op<T>>, more: seq<Op<T>>, w: nat)
    requires PlainAfter(ops).Some? && PlainAfter(ops + more).Some? && Holds(PlainAfter(ops).value, w)
    requires forall op :: op in more ==> !Drops(op, w)
    ensures Holds(PlainAfter(ops + more).value, w)
    ensures PlainAfter(ops + more).value[w].value.version == PlainAfter(ops).value[w].value.version + Commits(more, w)
  {
    if more == [] {
      assert ops + more == ops;
    } else {
      var last := |more| - 1;
      assert (ops + more)[..|ops + more| - 1] == ops + more[..last];
      VersionCountsCommits(ops, more[..last], w);
      hide PlainStep, Legal, Drops;
      StepKeepsVersion(PlainAfter(ops + more[..last]).value, more[last], w);
    }
  }

  // ----------------------------------------------------------------- the null id

  /** The two steps that give a live entity the null id: an insertion while the allocator
      is still null, and a restored null id. */
  predicate IssuesNull<T>(p: Plain<T>, op: Op<T>) {
    match op
    case Insert(w, _, _) => Holds(p, w) && p[w].value.nextId == 0
    case Restore(_, _, _, id) => id == 0
    case _ => false
  }

  ghost predicate ShowsNull<T>(v: View<T>) { exists k :: 0 <= k < |v.tables| && 0 in v.tables[k].idIndex }

  ghost predicate NullIsLive<T>(p: Plain<T>) { exists i: nat :: Holds(p, i) && ShowsNull(p[i].value) }

  /** The table of an insertion shows the null id after it exactly when it showed it before
      or was given it. */
  lemma InsertedShowsNull<T>(v: View<T>, k: nat, value: T, id: nat, next: nat)
    requires k < |v.tables|
    ensures ShowsNull(v.Inserted(k, value, id, next)) <==> ShowsNull(v) || id == 0
  {
    var v' := v.Inserted(k, value, id, next);
    assert forall i :: i in v'.tables[k].idIndex <==> i in v.tables[k].idIndex || i == id;
    assert forall l :: 0 <= l < |v.tables| && l != k ==> v'.tables[l] == v.tables[l];
    if ShowsNull(v) {
      var l :| 0 <= l < |v.tables| && 0 in v.tables[l].idIndex;
      assert 0 in v'.tables[l].idIndex;
    }
    if id == 0 {
      assert 0 in v'.tables[k].idIndex;
    }
  }

  /** Nothing but such a step makes the null id live, and such a step always does. */
  lemma NullStep<T>(p: Plain<T>, op: Op<T>)
    requires PlainValid(p) && Legal(p, op)
    ensures IssuesNull(p, op) ==> NullIsLive(PlainStep(p, op))
    ensures NullIsLive(PlainStep(p, op)) ==> NullIsLive(p) || IssuesNull(p, op)
  {
    hide PlainValid, View.Valid, ShowsNull, View.Inserted, State.Insert, State.Erase, State.Edit, View.Fresh;
    var q := PlainStep(p, op);
    match op
    case Insert(w, k, value) =>
      var v := p[w].value;
      InsertedShowsNull(v, k, value, v.nextId, (v.nextId + 1) % ID_LIMIT);
      NullUpdate(p, w, v.Inserted(k, value, v.nextId, (v.nextId + 1) % ID_LIMIT));
    case Restore(w, k, value, id) =>
      var v := p[w].value;
      InsertedShowsNull(v, k, value, id, v.NextAfter(id));
      NullUpdate(p, w, v.Inserted(k, value, id, v.NextAfter(id)));
    case Erase(w, k, h) =>
      ErasedShowsNull(p[w].value, k, h);
      NullUpdate(p, w, p[w].value.Put(k, p[w].value.tables[k].Erase(h)));
    case Edit(w, k, h, value) =>
      EditedShowsNull(p[w].value, k, h, value);
      NullUpdate(p, w, p[w].value.Put(k, p[w].value.tables[k].Edit(h, value)));
    case Open(kinds) => EmptyShowsNoNull<T>(kinds, true);
    case Blank(kinds) => EmptyShowsNoNull<T>(kinds, false);
    case OpenFrom(s) => SameTablesShowNull(p[s].value, p[s].value.(mutable := true));
    case Commit(w) =>
      var v := p[w].value.(version := p[w].value.version + 1);
      SameTablesShowNull(p[w].value, v);
      SameTablesShowNull(p[w].value, v.(mutable := false));
    case Drop(s) =>
      assert forall i: nat :: Holds(q, i) ==> Holds(p, i) && q[i] == p[i];
  }

  lemma NullUpdate<T>(p: Plain<T>, w: nat, v: View<T>)
    requires Holds(p, w)
    ensures ShowsNull(v) ==> NullIsLive(p[w := Some(v)])
    ensures NullIsLive(p[w := Some(v)]) ==> NullIsLive(p) || ShowsNull(v)
  {
    hide ShowsNull;
    var q := p[w := Some(v)];
    assert Holds(q, w);
    assert forall i: nat :: Holds(q, i) && i != w ==> Holds(p, i) && q[i] == p[i];
  }

  lemma PutShowsNull<T>(v: View<T>, k: nat, table: State<T>)
    requires k < |v.tables| && table.idIndex.Keys <= v.tables[k].idIndex.Keys
    ensures ShowsNull(v.Put(k, table)) ==> ShowsNull(v)
  {
    assert forall id :: id in table.idIndex ==> id in v.tables[k].idIndex;
  }

  lemma ErasedShowsNull<T>(v: View<T>, k: nat, h: Handle)
    requires k < |v.tables|
    ensures ShowsNull(v.Put(k, v.tables[k].Erase(h))) ==> ShowsNull(v)
  {
    PutShowsNull(v, k, v.tables[k].Erase(h));
  }

  lemma EditedShowsNull<T>(v: View<T>, k: nat, h: Handle, value: T)
    requires k < |v.tables|
    ensures ShowsNull(v.Put(k, v.tables[k].Edit(h, value))) ==> ShowsNull(v)
  {
    PutShowsNull(v, k, v.tables[k].Edit(h, value));
  }

  lemma EmptyShowsNoNull<T>(kinds: nat, mutable: bool)
    ensures !ShowsNull(View<T>.View(mutable, 0, FirstId(mutable), EmptyTables(kinds)))
  {}

  lemma SameTablesShowNull<T>(v: View<T>, v': View<T>)
    requires v.tables == v'.tables
    ensures ShowsNull(v) <==> ShowsNull(v')
  {}

  /** Some step of the run issued the null id. */
  ghost predicate NullIssued<T>(ops: seq<Op<T>>)
    requires PlainAfter(ops).Some?
  {
    ops != [] && (NullIssued(ops[..|ops| - 1]) || IssuesNull(PlainAfter(ops[..|ops| - 1]).value, ops[|ops| - 1]))
  }

  /** At some point of the run the null id was live somewhere. */
  ghost predicate NullWasLive<T>(ops: seq<Op<T>>)
    requires PlainAfter(ops).Some?
  {
    NullIsLive(PlainAfter(ops).value) || (ops != [] && NullWasLive(ops[..|ops| - 1]))
  }

  /** Over every run, the null id is at some point the id of a live entity if and only if
      some step inserted while its allocator was null or restored the null id. */
  lemma {:induction false} NullIdIff<T>(ops: seq<Op<T>>)
    requires PlainAfter(ops).Some?
    ensures NullWasLive(ops) <==> NullIssued(ops)
  {
    if ops != [] {
      var last := |ops| - 1;
      NullIdIff(ops[..last]);
      hide PlainStep, Legal, NullIsLive, IssuesNull, PlainValid;
      NullStep(PlainAfter(ops[..last]).value, ops[last]);
    }
  }

  /** The allocator of a holder. */
  ghost predicate AllocatorsPastNull<T>(p: Plain<T>) { forall i: nat :: Holds(p, i) ==> p[i].value.nextId > 0 }

  lemma AllocatorStep<T>(p: Plain<T>, op: Op<T>)
    requires PlainValid(p) && Legal(p, op) && AllocatorsPastNull(p) && !op.Blank?
    ensures AllocatorsPastNull(PlainStep(p, op))
  {
    hide PlainValid, View.Fresh, State.Insert, State.Erase, State.Edit;
  }

  /** Without a default-constructed snapshot no allocator is ever null, so that only a
      restored null id could make one live. */
  lemma {:induction false} AllocatorNeverNull<T>(ops: seq<Op<T>>)
    requires PlainAfter(ops).Some? && forall i :: 0 <= i < |ops| ==> !ops[i].Blank?
    ensures AllocatorsPastNull(PlainAfter(ops).value)
  {
    if ops != [] {
      var last := |ops| - 1;
      AllocatorNeverNull(ops[..last]);
      hide PlainStep, Legal, AllocatorsPastNull, PlainValid;
      AllocatorStep(PlainAfter(ops[..last]).value, ops[last]);
    }
  }

  /** A workspace opened from a default-constructed snapshot gives its first entity the
      id that is reserved for no entity. */
  lemma BlankSnapshotIssuesNull<T>(value: T)
    ensures var ops := [Blank(1), OpenFrom(0), Insert(1, 0, value)];
            PlainAfter(ops).Some? && NullIsLive(PlainAfter(ops).value)
  {
    BlankOpened<T>();
    var ops: seq<Op<T>> := [Blank(1)] + [OpenFrom(0)];
    assert ops + [Insert(1, 0, value)] == [Blank(1), OpenFrom(0), Insert(1, 0, value)];
    hide PlainAfter, NullIsLive;
    PlainAppend(ops, Insert(1, 0, value));
    NullStep(PlainAfter(ops).value, Insert(1, 0, value));
  }

  /** A workspace over the default-constructed snapshot of one table. */
  lemma BlankOpened<T>()
    ensures var v: View<T> := View(false, 0, FirstId(false), EmptyTables(1));
            PlainAfter([Blank(1)] + [OpenFrom(0)]) == Some([Some(v), Some(v.(mutable := true))])
  {
    var none: seq<Op<T>> := [];
    var first: seq<Op<T>> := [Blank(1)];
    assert PlainAfter(none) == Some([]);
    hide PlainAfter, EmptyTables;
    PlainAppend(none, Blank(1));
    assert none + first == first;
    var v: View<T> := View(false, 0, FirstId(false), EmptyTables(1));
    var nothing: Plain<T> := [];
    assert nothing + [Some(v)] == [Some(v)];
    assert PlainAfter(first) == Some([Some(v)]);
    PlainAppend(first, OpenFrom(0));
    assert [Some(v)] + [Some(v.(mutable := true))] == [Some(v), Some(v.(mutable := true))];
  }

  lemma PlainAppend<T>(ops: seq<Op<T>>, op: Op<T>)
    requires PlainAfter(ops).Some? && Legal(PlainAfter(ops).value, op)
    ensures PlainAfter(ops + [op]) == Some(PlainStep(PlainAfter(ops).value, op))
  {
    hide Legal, PlainStep;
    assert (ops + [op])[..|ops + [op]| - 1] == ops;
  }

  // --------------------------------------------------------------- serialization

  /** One `insert_with_id` call of a deserializer. */
  datatype Entry<T> = Entry(table: nat, id: nat, value: T)

  function Replay<T>(kinds: nat, log: seq<Entry<T>>): (v: View<T>)
    requires forall i :: 0 <= i < |log| ==> log[i].table < kinds
    ensures |v.tables| == kinds
  {
    if log == [] then View(true, 0, 1, EmptyTables(kinds))
    else
      var e := log[|log| - 1];
      var v := Replay(kinds, log[..|log| - 1]);
      v.Inserted(e.table, e.value, e.id, v.NextAfter(e.id))
  }

  /** The part of a log that goes to one table, in log order. */
  function Select<T>(log: seq<Entry<T>>, k: nat): seq<(nat, T)> {
    if log == [] then []
    else
      var e := log[|log| - 1];
      Select(log[..|log| - 1], k) + if e.table == k then [(e.id, e.value)] else []
  }

  function PackedSlots<T>(entries: seq<(nat, T)>): (slots: seq<Slot<T>>)
    ensures |slots| == |entries|
    ensures forall i :: 0 <= i < |slots| ==> slots[i] == Slot(Some(entries[i].1), entries[i].0, 1)
  {
    seq(|entries|, i requires 0 <= i < |entries| => Slot(Some(entries[i].1), entries[i].0, 1))
  }

  lemma {:induction false} PackedEntries<T>(entries: seq<(nat, T)>)
    ensures EntriesOf(PackedSlots(entries)) == entries
  {
    if entries != [] {
      var last := |entries| - 1;
      PackedEntries(entries[..last]);
      assert PackedSlots(entries)[..last] == PackedSlots(entries[..last]);
      assert entries == entries[..last] + [entries[last]];
    }
  }

  ghost predicate DistinctIds<T>(log: seq<Entry<T>>) {
    forall i, j :: 0 <= i < j < |log| ==> log[i].id != log[j].id
  }

  lemma PackedInsert<T>(s: State<T>, entries: seq<(nat, T)>, value: T, id: nat)
    requires s.slots == PackedSlots(entries) && s.freeList == []
    ensures s.Insert(value, id).slots == PackedSlots(entries + [(id, value)])
    ensures s.Insert(value, id).freeList == []
  {}

  ghost predicate WellTabled<T>(kinds: nat, log: seq<Entry<T>>) {
    forall i :: 0 <= i < |log| ==> log[i].table < kinds && log[i].id < ID_LIMIT - 1
  }

  lemma {:induction false} ReplayTable<T>(kinds: nat, log: seq<Entry<T>>, k: nat)
    requires WellTabled(kinds, log) && k < kinds
    ensures Replay(kinds, log).tables[k].slots == PackedSlots(Select(log, k))
    ensures Replay(kinds, log).tables[k].freeList == []
  {
    if log != [] {
      hide State.Insert, PackedSlots, View.NextAfter;
      var last := |log| - 1;
      ReplayTable(kinds, log[..last], k);
      PackedInsert(Replay(kinds, log[..last]).tables[k], Select(log[..last], k), log[last].value, log[last].id);
    } else {
      assert PackedSlots<T>([]) == [];
    }
  }

  /** The allocator ends just past the largest id of the log. */
  ghost predicate JustPast<T>(next: nat, log: seq<Entry<T>>) {
    && (forall i :: 0 <= i < |log| ==> log[i].id < next)
    && (next == 1 || exists i :: 0 <= i < |log| && next == log[i].id + 1)
  }

  lemma JustPastStep<T>(next: nat, log: seq<Entry<T>>, e: Entry<T>)
    requires JustPast(next, log)
    ensures JustPast(if e.id >= next then e.id + 1 else next, log + [e])
  {
    var longer := log + [e];
    assert longer[|log|] == e;
    if next != 1 {
      var i :| 0 <= i < |log| && next == log[i].id + 1;
      assert longer[i] == log[i];
    }
  }

  lemma ReplayLast<T>(kinds: nat, log: seq<Entry<T>>)
    requires WellTabled(kinds, log) && log != []
    ensures WellTabled(kinds, log[..|log| - 1])
    ensures var before, e := Replay(kinds, log[..|log| - 1]), log[|log| - 1];
            Replay(kinds, log).nextId == if e.id >= before.nextId then e.id + 1 else before.nextId
  {
    hide State.Insert, View.NextAfter;
    var before, e := Replay(kinds, log[..|log| - 1]), log[|log| - 1];
    NextAfterBelowLimit(before, e.id);
  }

  lemma NextAfterBelowLimit<T>(v: View<T>, id: nat)
    requires id < ID_LIMIT - 1
    ensures v.NextAfter(id) == if id >= v.nextId then id + 1 else v.nextId
  {}

  lemma {:induction false} ReplayAllocator<T>(kinds: nat, log: seq<Entry<T>>)
    requires WellTabled(kinds, log)
    ensures JustPast(Replay(kinds, log).nextId, log)
  {
    if log != [] {
      var last := |log| - 1;
      ReplayLast(kinds, log);
      hide WellTabled, JustPast, Replay;
      ReplayAllocator(kinds, log[..last]);
      JustPastStep(Replay(kinds, log[..last]).nextId, log[..last], log[last]);
      assert log == log[..last] + [log[last]];
    } else {
      assert JustPast<T>(1, []);
    }
  }

  lemma {:induction false} ReplayIds<T>(kinds: nat, log: seq<Entry<T>>, k: nat, id: nat)
    requires WellTabled(kinds, log) && k < kinds
    requires id in Replay(kinds, log).tables[k].idIndex
    ensures exists i :: 0 <= i < |log| && log[i].table == k && log[i].id == id
  {
    if log != [] {
      var last := |log| - 1;
      if log[last].table != k || log[last].id != id {
        ReplayIds(kinds, log[..last], k, id);
        var i :| 0 <= i < last && log[..last][i].table == k && log[..last][i].id == id;
        assert log[i].table == k;
      }
    }
  }

  /** Every call of a replay brings a fresh id, so the result is a valid workspace. */
  lemma {:induction false} ReplayValid<T>(kinds: nat, log: seq<Entry<T>>)
    requires WellTabled(kinds, log) && DistinctIds(log)
    ensures Replay(kinds, log).Valid()
  {
    if log == [] {
      EmptyViewValid<T>(kinds, true);
    } else {
      var last := |log| - 1;
      var e, before := log[last], log[..last];
      ReplayValid(kinds, before);
      var v := Replay(kinds, before);
      forall k | 0 <= k < kinds
        ensures e.id !in v.tables[k].idIndex
      {
        if e.id in v.tables[k].idIndex {
          ReplayIds(kinds, before, k, e.id);
          assert false;
        }
      }
      hide View.Valid, View.Inserted, View.NextAfter;
      InsertedValid(v, e.table, e.value, e.id);
    }
  }

  /** The listing of one table, as log entries. */
  function Tagged<T>(entries: seq<(nat, T)>, k: nat): (log: seq<Entry<T>>)
    ensures |log| == |entries|
    ensures forall i :: 0 <= i < |log| ==> log[i] == Entry(k, entries[i].0, entries[i].1)
  {
    seq(|entries|, i requires 0 <= i < |entries| => Entry(k, entries[i].0, entries[i].1))
  }

  /** What a serializer writes: the `for_each` listing of each table in turn. */
  function Log<T>(tables: seq<State<T>>): seq<Entry<T>> {
    if tables == [] then []
    else Log(tables[..|tables| - 1]) + Tagged(tables[|tables| - 1].Entries(), |tables| - 1)
  }

  lemma {:induction false} SelectConcat<T>(a: seq<Entry<T>>, b: seq<Entry<T>>, k: nat)
    ensures Select(a + b, k) == Select(a, k) + Select(b, k)
  {
    if b == [] {
      assert a + b == a;
    } else {
      SelectConcat(a, b[..|b| - 1], k);
      assert (a + b)[..|a + b| - 1] == a + b[..|b| - 1];
    }
  }

  lemma SelectLast<T>(log: seq<Entry<T>>, e: Entry<T>, k: nat)
    ensures Select(log + [e], k) == Select(log, k) + if e.table == k then [(e.id, e.value)] else []
  {
    assert (log + [e])[..|log + [e]| - 1] == log;
  }

  lemma {:induction false} SelectTagged<T>(entries: seq<(nat, T)>, k: nat, l: nat)
    ensures Select(Tagged(entries, k), l) == if k == l then entries else []
  {
    if entries == [] {
      assert Tagged(entries, k) == [];
    } else {
      hide Select, Tagged;
      var last := |entries| - 1;
      SelectTagged(entries[..last], k, l);
      SelectLast(Tagged(entries[..last], k), Entry(k, entries[last].0, entries[last].1), l);
      TaggedLast(entries, k);
      assert entries == entries[..last] + [entries[last]];
    }
  }

  lemma TaggedLast<T>(entries: seq<(nat, T)>, k: nat)
    requires entries != []
    ensures var last := |entries| - 1;
            Tagged(entries, k) == Tagged(entries[..last], k) + [Entry(k, entries[last].0, entries[last].1)]
  {
    hide Tagged;
  }

  lemma LogLast<T>(tables: seq<State<T>>)
    ensures Log(tables) == if tables == [] then []
                           else Log(tables[..|tables| - 1]) + Tagged(tables[|tables| - 1].Entries(), |tables| - 1)
  {
    hide Tagged, State.Entries;
  }

  lemma {:induction false} SelectLog<T>(tables: seq<State<T>>, k: nat)
    ensures Select(Log(tables), k) == if k < |tables| then tables[k].Entries() else []
  {
    LogLast(tables);
    hide Log, Tagged, State.Entries;
    if tables != [] {
      hide Select;
      var last := |tables| - 1;
      SelectLog(tables[..last], k);
      SelectConcat(Log(tables[..last]), Tagged(tables[last].Entries(), last), k);
      SelectTagged(tables[last].Entries(), last, k);
    }
  }

  lemma {:induction false} EntrySource<T>(slots: seq<Slot<T>>, i: nat) returns (j: nat)
    requires i < |EntriesOf(slots)|
    ensures j < |slots| && slots[j].value.Some? && EntriesOf(slots)[i] == (slots[j].id, slots[j].value.value)
  {
    var last := |slots| - 1;
    if i < |EntriesOf(slots[..last])| {
      j := EntrySource(slots[..last], i);
    } else {
      j := last;
    }
  }

  ghost predicate DistinctLiveIds<T>(slots: seq<Slot<T>>) {
    forall i, j :: 0 <= i < j < |slots| && slots[i].value.Some? && slots[j].value.Some? ==> slots[i].id != slots[j].id
  }

  lemma {:induction false} EntriesDistinct<T>(slots: seq<Slot<T>>)
    requires DistinctLiveIds(slots)
    ensures forall i, j :: 0 <= i < j < |EntriesOf(slots)| ==> EntriesOf(slots)[i].0 != EntriesOf(slots)[j].0
  {
    if slots != [] {
      var last := |slots| - 1;
      EntriesDistinct(slots[..last]);
      forall i | 0 <= i < |EntriesOf(slots[..last])| && slots[last].value.Some?
        ensures EntriesOf(slots[..last])[i].0 != slots[last].id
      {
        var j := EntrySource(slots[..last], i);
      }
    }
  }

  ghost predicate AllIndexed<T>(tables: seq<State<T>>) {
    && (forall k :: 0 <= k < |tables| ==> tables[k].IndexValid())
    && (forall k, l, id :: 0 <= k < l < |tables| && id in tables[k].idIndex ==> id !in tables[l].idIndex)
  }

  lemma {:induction false} LogSource<T>(tables: seq<State<T>>, i: nat)
    requires AllIndexed(tables) && i < |Log(tables)|
    ensures var e := Log(tables)[i]; e.table < |tables| && e.id in tables[e.table].idIndex
  {
    var last := |tables| - 1;
    var before := Log(tables[..last]);
    if i < |before| {
      LogSource(tables[..last], i);
    } else {
      var j := EntrySource(tables[last].slots, i - |before|);
      assert tables[last].Live(j);
    }
  }

  lemma {:induction false} LogDistinct<T>(tables: seq<State<T>>)
    requires AllIndexed(tables)
    ensures DistinctIds(Log(tables))
  {
    hide DistinctIds, EntriesOf;
    if tables == [] {
      EmptyLogDistinct(tables);
    } else {
      var last := |tables| - 1;
      var before, added := Log(tables[..last]), Tagged(tables[last].Entries(), last);
      LogDistinct(tables[..last]);
      TaggedDistinct(tables[last], last);
      forall i, j | 0 <= i < |before| && 0 <= j < |added|
        ensures before[i].id != added[j].id
      {
        LogSource(tables[..last], i);
        LogSource(tables, |before| + j);
      }
      JoinDistinct(before, added);
    }
  }

  lemma EmptyLogDistinct<T>(tables: seq<State<T>>)
    requires tables == []
    ensures DistinctIds(Log(tables))
  {}

  lemma TaggedDistinct<T>(s: State<T>, k: nat)
    requires s.IndexValid()
    ensures DistinctIds(Tagged(s.Entries(), k))
  {
    LiveIdsDistinct(s);
    EntriesDistinct(s.slots);
    hide EntriesOf;
  }

  lemma JoinDistinct<T>(a: seq<Entry<T>>, b: seq<Entry<T>>)
    requires DistinctIds(a) && DistinctIds(b)
    requires forall i, j :: 0 <= i < |a| && 0 <= j < |b| ==> a[i].id != b[j].id
    ensures DistinctIds(a + b)
  {}

  lemma LiveIdsDistinct<T>(s: State<T>)
    requires s.IndexValid()
    ensures DistinctLiveIds(s.slots)
  {
    forall i, j | 0 <= i < j < |s.slots| && s.slots[i].value.Some? && s.slots[j].value.Some?
      ensures s.slots[i].id != s.slots[j].id
    {
      assert s.Live(i) && s.Live(j);
    }
  }

  /** Saving and loading: replaying every table's listing through `insert_with_id`
      into an empty workspace gives a valid workspace that lists the same ids and
      values in the same order, with the allocator just past the largest id. */
  lemma ReplayReproduces<T>(v: View<T>)
    requires v.Valid()
    ensures var log := Log(v.tables);
            && WellTabled(|v.tables|, log)
            && var loaded := Replay(|v.tables|, log);
               && loaded.Valid()
               && (forall k :: 0 <= k < |v.tables| ==> loaded.tables[k].Entries() == v.tables[k].Entries())
               && JustPast(loaded.nextId, log)
  {
    var n, log := |v.tables|, Log(v.tables);
    assert AllIndexed(v.tables);
    LogDistinct(v.tables);
    forall i | 0 <= i < |log|
      ensures log[i].table < n && log[i].id < ID_LIMIT - 1
    {
      LogSource(v.tables, i);
    }
    hide View.Valid, State.Valid, AllIndexed;
    ReplayValid(n, log);
    ReplayAllocator(n, log);
    forall k | 0 <= k < n
      ensures Replay(n, log).tables[k].Entries() == v.tables[k].Entries()
    {
      ReplayTable(n, log, k);
      SelectLog(v.tables, k);
      PackedEntries(Select(log, k));
    }
  }
}
