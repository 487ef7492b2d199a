/** `assemble_loops`: chaining loose, arbitrarily directed edges into closed loops. */
module OutlineAssembly {
  import opened Wrappers
  import opened Seqs
  import opened Geometry
  import opened Contours

  // ------------------------------------------------------- the greedy algorithm

  /** `std::ranges::find_if` over start points: the first match at or after `i`. */
  function FindStart(spans: seq<Span>, p: Point): (r: Option<nat>)
    ensures r.Some? ==> r.value < |spans| && spans[r.value].start == p
    ensures r.None? <==> forall i :: 0 <= i < |spans| ==> spans[i].start != p
    ensures r.Some? ==> forall i :: 0 <= i < r.value ==> spans[i].start != p
  {
    if spans == [] then None
    else if spans[0].start == p then Some(0)
    else match FindStart(spans[1..], p)
      case None => None
      case Some(i) => Some(i + 1)
  }

  function FindEnd(spans: seq<Span>, p: Point): (r: Option<nat>)
    ensures r.Some? ==> r.value < |spans| && spans[r.value].end == p
    ensures r.None? <==> forall i :: 0 <= i < |spans| ==> spans[i].end != p
    ensures r.Some? ==> forall i :: 0 <= i < r.value ==> spans[i].end != p
  {
    if spans == [] then None
    else if spans[0].end == p then Some(0)
    else match FindEnd(spans[1..], p)
      case None => None
      case Some(i) => Some(i + 1)
  }

  /** The next edge of the walk: one that starts at `p`, else one that ends there. */
  datatype Pick = Pick(index: nat, reversed: bool)

  function PickNext(spans: seq<Span>, p: Point): (r: Option<Pick>)
    ensures r.Some? ==> r.value.index < |spans|
    ensures r.Some? ==> p == if r.value.reversed then spans[r.value.index].end else spans[r.value.index].start
    ensures r.None? ==> forall i :: 0 <= i < |spans| ==> spans[i].start != p && spans[i].end != p
    ensures r.Some? && !r.value.reversed ==> forall i :: 0 <= i < r.value.index ==> spans[i].start != p
    ensures r.Some? && r.value.reversed ==>
              && (forall i :: 0 <= i < |spans| ==> spans[i].start != p)
              && forall i :: 0 <= i < r.value.index ==> spans[i].end != p
  {
    match FindStart(spans, p)
    case Some(i) => Some(Pick(i, false))
    case None =>
      match FindEnd(spans, p)
      case Some(i) => Some(Pick(i, true))
      case None => None
  }

  function Directed(s: Span, reversed: bool): Span { if reversed then ReverseSpan(s) else s }

  function Without<T>(s: seq<T>, i: nat): seq<T>
    requires i < |s|
  {
    s[..i] + s[i + 1..]
  }

  predicate Closed(trail: seq<Span>) { trail != [] && trail[|trail| - 1].end == trail[0].start }

  /** The inner loop: extend the trail until it closes or no edge is left at its end. */
  function Walk(trail: seq<Span>, spans: seq<Span>): (r: Option<(seq<Span>, seq<Span>)>)
    requires trail != []
    ensures r.Some? ==> |r.value.1| <= |spans|
    decreases |spans|
  {
    if Closed(trail) then Some((trail, spans))
    else match PickNext(spans, trail[|trail| - 1].end)
      case None => None
      case Some(pick) => Walk(trail + [Directed(spans[pick.index], pick.reversed)], Without(spans, pick.index))
  }

  /** The outer loop: loops are started from the last remaining edge. */
  function Assemble(spans: seq<Span>): Option<seq<Contour>>
    decreases |spans|
  {
    if spans == [] then Some([])
    else
      var last := |spans| - 1;
      match Walk([spans[last]], spans[..last])
      case None => None
      case Some((loop, rest)) =>
        match Assemble(rest)
        case None => None
        case Some(loops) => Some([Contour(loop)] + loops)
  }

  lemma WalkCloses(trail: seq<Span>, spans: seq<Span>)
    requires Closed(trail)
    ensures Walk(trail, spans) == Some((trail, spans))
  {}

  lemma WalkStops(trail: seq<Span>, spans: seq<Span>)
    requires trail != [] && !Closed(trail)
    requires FindStart(spans, trail[|trail| - 1].end).None? && FindEnd(spans, trail[|trail| - 1].end).None?
    ensures Walk(trail, spans).None?
  {
    hide FindStart, FindEnd;
  }

  lemma WalkGoesOn(trail: seq<Span>, spans: seq<Span>, i: nat, reversed: bool)
    requires trail != [] && !Closed(trail) && i < |spans|
    requires var end := trail[|trail| - 1].end;
             if reversed then FindStart(spans, end).None? && FindEnd(spans, end) == Some(i)
             else FindStart(spans, end) == Some(i)
    ensures Walk(trail, spans) == Walk(trail + [Directed(spans[i], reversed)], Without(spans, i))
  {
    hide FindStart, FindEnd, Directed;
  }

  lemma AssembleStep(edges: seq<Span>)
    requires edges != []
    ensures Assemble(edges) ==
            match Walk([edges[|edges| - 1]], edges[..|edges| - 1])
            case None => None
            case Some((loop, rest)) =>
              match Assemble(rest) case None => None case Some(loops) => Some([Contour(loop)] + loops)
  {
    hide Walk;
  }

  /** `assemble_loops` itself; `None` is the thrown ImportError. */
  method AssembleLoops(edges: seq<Span>) returns (r: Option<seq<Contour>>)
    ensures r == Assemble(edges)
  {
    hide Walk, FindStart, FindEnd, Prepend;
    var spans := edges;
    var loops: seq<Contour> := [];
    PrependNothing(Assemble(edges));
    while spans != []
      invariant Assemble(edges) == Prepend(loops, Assemble(spans))
      decreases |spans|
    {
      ghost var before := spans;
      AssembleStep(before);
      hide Assemble;
      var loop := [spans[|spans| - 1]];
      spans := spans[..|spans| - 1];
      while loop[|loop| - 1].end != loop[0].start
        invariant loop != [] && |spans| < |before|
        invariant Walk(loop, spans) == Walk([before[|before| - 1]], before[..|before| - 1])
        decreases |spans|
      {
        var target := loop[|loop| - 1].end;
        var it := FindStart(spans, target);
        var reversed := false;
        if it.None? {
          it := FindEnd(spans, target);
          reversed := true;
        }
        if it.None? {
          WalkStops(loop, spans);
          NothingPrepended(loops);
          return None;
        }
        WalkGoesOn(loop, spans, it.value, reversed);
        loop := loop + [if reversed then ReverseSpan(spans[it.value]) else spans[it.value]];
        spans := spans[..it.value] + spans[it.value + 1..];
      }
      WalkCloses(loop, spans);
      PrependMore(loops, Contour(loop), Assemble(spans));
      loops := loops + [Contour(loop)];
    }
    AllPrepended(loops);
    return Some(loops);
  }

  ghost function Prepend(done: seq<Contour>, rest: Option<seq<Contour>>): Option<seq<Contour>> {
    match rest case None => None case Some(loops) => Some(done + loops)
  }

  lemma PrependNothing(rest: Option<seq<Contour>>)
    ensures Prepend([], rest) == rest
  {
    if rest.Some? {
      assert [] + rest.value == rest.value;
    }
  }

  lemma NothingPrepended(done: seq<Contour>)
    ensures Prepend(done, None) == None
  {}

  lemma AllPrepended(done: seq<Contour>)
    ensures Assemble([]) == Some([]) && Prepend(done, Some([])) == Some(done)
  {
    assert done + [] == done;
  }

  lemma PrependMore(done: seq<Contour>, loop: Contour, rest: Option<seq<Contour>>)
    ensures Prepend(done + [loop], rest) ==
            Prepend(done, match rest case None => None case Some(loops) => Some([loop] + loops))
  {
    if rest.Some? {
      assert done + [loop] + rest.value == done + ([loop] + rest.value);
    }
  }

  // ------------------------------------------------------------------- degrees

  function Touch(p: Point, q: Point): nat { if p == q then 1 else 0 }

  /** How often `p` occurs among the endpoints of the edges; a closed edge counts twice. */
  function Degree(p: Point, spans: seq<Span>): nat {
    if spans == [] then 0
    else
      var last := |spans| - 1;
      Degree(p, spans[..last]) + Touch(p, spans[last].start) + Touch(p, spans[last].end)
  }

  ghost predicate EvenDegrees(spans: seq<Span>) { forall p :: Degree(p, spans) % 2 == 0 }

  lemma {:induction false} DegreeConcat(p: Point, a: seq<Span>, b: seq<Span>)
    ensures Degree(p, a + b) == Degree(p, a) + Degree(p, b)
  {
    if b == [] {
      assert a + b == a;
    } else {
      var last := |b| - 1;
      assert (a + b)[..|a + b| - 1] == a + b[..last];
      DegreeConcat(p, a, b[..last]);
    }
  }

  lemma DegreeOne(p: Point, s: Span)
    ensures Degree(p, [s]) == Touch(p, s.start) + Touch(p, s.end)
  {
    assert [s][..0] == [];
  }

  lemma DegreeWithout(p: Point, spans: seq<Span>, i: nat)
    requires i < |spans|
    ensures Degree(p, spans) == Degree(p, Without(spans, i)) + Degree(p, [spans[i]])
  {
    assert spans == spans[..i] + ([spans[i]] + spans[i + 1..]);
    DegreeConcat(p, spans[..i], [spans[i]] + spans[i + 1..]);
    DegreeConcat(p, [spans[i]], spans[i + 1..]);
    DegreeConcat(p, spans[..i], spans[i + 1..]);
  }

  lemma {:induction false} DegreeAbsent(p: Point, spans: seq<Span>)
    requires forall i :: 0 <= i < |spans| ==> spans[i].start != p && spans[i].end != p
    ensures Degree(p, spans) == 0
  {
    if spans != [] {
      DegreeAbsent(p, spans[..|spans| - 1]);
    }
  }

  /** Consecutive edges meet. */
  predicate Trail(t: seq<Span>) { forall i :: 0 <= i < |t| - 1 ==> t[i].end == t[i + 1].start }

  /** On a trail only the two ends can have odd degree. */
  lemma {:induction false} TrailDegree(p: Point, t: seq<Span>)
    requires t != [] && Trail(t)
    ensures Degree(p, t) % 2 == (Touch(p, t[0].start) + Touch(p, t[|t| - 1].end)) % 2
  {
    var last := |t| - 1;
    if last == 0 {
      assert t == [t[0]];
      DegreeOne(p, t[0]);
    } else {
      assert t[..last][0] == t[0] && t[..last][last - 1] == t[last - 1];
      TrailDegree(p, t[..last]);
      assert t[last - 1].end == t[last].start;
    }
  }

  // ---------------------------------------------------- what the walk preserves

  /** `used` are the edges of `original`, each kept or reversed. */
  predicate UpToReversal(used: seq<Span>, original: seq<Span>) {
    |used| == |original| &&
    forall i :: 0 <= i < |used| ==> used[i] == original[i] || used[i] == ReverseSpan(original[i])
  }

  /** Every edge of `edges` is used exactly once, in some order, up to reversal. */
  ghost predicate UsesEachOnce(used: seq<Span>, edges: seq<Span>) {
    exists original :: multiset(original) == multiset(edges) && UpToReversal(used, original)
  }

  lemma MultisetWithout<T>(s: seq<T>, i: nat)
    requires i < |s|
    ensures multiset(s) == multiset(Without(s, i)) + multiset([s[i]])
  {
    assert s == s[..i] + [s[i]] + s[i + 1..];
  }

  /** One walk: the loop it returns is a closed trail over the edges it removed. */
  lemma {:induction false} WalkUses(trail: seq<Span>, spans: seq<Span>, original: seq<Span>)
      returns (original': seq<Span>)
    requires trail != [] && Trail(trail) && UpToReversal(trail, original)
    requires Walk(trail, spans).Some?
    ensures var (loop, rest) := Walk(trail, spans).value;
            && Trail(loop) && Closed(loop)
            && UpToReversal(loop, original')
            && multiset(original') + multiset(rest) == multiset(original) + multiset(spans)
    decreases |spans|
  {
    if Closed(trail) {
      original' := original;
    } else {
      var pick := PickNext(spans, trail[|trail| - 1].end).value;
      var chosen := spans[pick.index];
      MultisetWithout(spans, pick.index);
      original' := WalkUses(trail + [Directed(chosen, pick.reversed)], Without(spans, pick.index), original + [chosen]);
    }
  }

  function Flatten(loops: seq<Contour>): seq<Span> {
    if loops == [] then [] else loops[0].spans + Flatten(loops[1..])
  }

  lemma UpToReversalConcat(a: seq<Span>, oa: seq<Span>, b: seq<Span>, ob: seq<Span>)
    requires UpToReversal(a, oa) && UpToReversal(b, ob)
    ensures UpToReversal(a + b, oa + ob)
  {}

  lemma ClosedTrailIsContinuous(t: seq<Span>)
    requires Trail(t) && Closed(t)
    ensures Continuous(Contour(t))
  {}

  lemma {:induction false} AssembleUses(edges: seq<Span>) returns (original: seq<Span>)
    requires Assemble(edges).Some?
    ensures multiset(original) == multiset(edges)
    ensures UpToReversal(Flatten(Assemble(edges).value), original) && AllClosed(Assemble(edges).value)
    decreases |edges|
  {
    if edges == [] {
      original := [];
    } else {
      var last := |edges| - 1;
      AssembleFirst(edges);
      FirstTrail(edges[last]);
      hide Assemble, Walk, UpToReversal, Trail, Closed, Flatten, AllClosed;
      var first := WalkUses([edges[last]], edges[..last], [edges[last]]);
      var (loop, rest) := Walk([edges[last]], edges[..last]).value;
      var others := AssembleUses(rest);
      var loops := Assemble(rest).value;
      original := first + others;
      FlattenFirst(Contour(loop), loops);
      AllClosedFirst(loop, loops);
      UpToReversalConcat(loop, first, Flatten(loops), others);
      JoinedMultiset(first, others, rest, edges);
    }
  }

  /** The first loop of an assembly, and the assembly of what it leaves. */
  lemma AssembleFirst(edges: seq<Span>)
    requires edges != [] && Assemble(edges).Some?
    ensures var last := |edges| - 1;
            var walk := Walk([edges[last]], edges[..last]);
            && walk.Some? && walk.value.0 != [] && |walk.value.1| < |edges| && Assemble(walk.value.1).Some?
            && Assemble(edges) == Some([Contour(walk.value.0)] + Assemble(walk.value.1).value)
  {
    WalkIsNotEmpty([edges[|edges| - 1]], edges[..|edges| - 1]);
    hide Walk;
  }

  lemma {:induction false} WalkIsNotEmpty(trail: seq<Span>, spans: seq<Span>)
    requires trail != []
    ensures Walk(trail, spans).Some? ==> Walk(trail, spans).value.0 != []
    decreases |spans|
  {
    hide Closed, PickNext;
    if !Closed(trail) && PickNext(spans, trail[|trail| - 1].end).Some? {
      var pick := PickNext(spans, trail[|trail| - 1].end).value;
      WalkIsNotEmpty(trail + [Directed(spans[pick.index], pick.reversed)], Without(spans, pick.index));
    }
  }

  /** Every loop is a closed trail of at least one edge. */
  predicate AllClosed(loops: seq<Contour>) {
    forall i :: 0 <= i < |loops| ==> loops[i].spans != [] && Trail(loops[i].spans) && Closed(loops[i].spans)
  }

  lemma AllClosedFirst(loop: seq<Span>, loops: seq<Contour>)
    requires loop != [] && Trail(loop) && Closed(loop) && AllClosed(loops)
    ensures AllClosed([Contour(loop)] + loops)
  {
    hide Trail, Closed;
  }

  lemma JoinedMultiset<T>(first: seq<T>, others: seq<T>, rest: seq<T>, edges: seq<T>)
    requires edges != [] && multiset(others) == multiset(rest)
    requires multiset(first) + multiset(rest) == multiset([edges[|edges| - 1]]) + multiset(edges[..|edges| - 1])
    ensures multiset(first + others) == multiset(edges)
  {
    assert edges == edges[..|edges| - 1] + [edges[|edges| - 1]];
  }

  lemma FirstTrail(s: Span)
    ensures Trail([s]) && UpToReversal([s], [s])
  {}

  lemma FlattenFirst(first: Contour, loops: seq<Contour>)
    ensures Flatten([first] + loops) == first.spans + Flatten(loops)
  {
    assert ([first] + loops)[1..] == loops;
  }

  /** When `assemble_loops` returns, every loop is continuous and closed, and the
      loops together use each input edge exactly once, up to reversal. */
  lemma AssembledLoops(edges: seq<Span>)
    requires Assemble(edges).Some?
    ensures var loops := Assemble(edges).value;
            && UsesEachOnce(Flatten(loops), edges)
            && forall i :: 0 <= i < |loops| ==> loops[i].spans != [] && Continuous(loops[i])
  {
    var original := AssembleUses(edges);
    var loops := Assemble(edges).value;
    forall i | 0 <= i < |loops|
      ensures Continuous(loops[i])
    {
      ClosedTrailIsContinuous(loops[i].spans);
    }
  }

  // ---------------------------------------------------------- which loops they are

  /** Edge `i` of the pool is the one that continues at `p`: the first that starts there, as it is;
      or, when none does, the first that ends there, turned round. */
  predicate Continues(pool: seq<Span>, p: Point, next: Span, i: nat)
    requires i < |pool|
  {
    || (next == pool[i] && pool[i].start == p && forall j :: 0 <= j < i ==> pool[j].start != p)
    || (next == ReverseSpan(pool[i]) && pool[i].end == p
        && (forall j :: 0 <= j < |pool| ==> pool[j].start != p) && forall j :: 0 <= j < i ==> pool[j].end != p)
  }

  /** `next` is taken out of the pool at `p`. */
  ghost predicate Taken(pool: seq<Span>, p: Point, next: Span, rest: seq<Span>) {
    exists i: nat :: i < |pool| && Continues(pool, p, next, i) && rest == pool[..i] + pool[i + 1..]
  }

  /** Span after span is taken out of the pool at the end of the span before it; `pools[k]` is what
      is left when span `k` is in place. */
  ghost predicate Grown(loop: seq<Span>, pools: seq<seq<Span>>) {
    && |pools| == |loop|
    && forall k :: 0 <= k < |loop| - 1 ==> Taken(pools[k], loop[k].end, loop[k + 1], pools[k + 1])
  }

  /** The loop returns to its start with its last span and not before. */
  predicate ClosesAtTheEnd(loop: seq<Span>) {
    && loop != [] && loop[|loop| - 1].end == loop[0].start
    && forall k :: 0 <= k < |loop| - 1 ==> loop[k].end != loop[0].start
  }

  /** The loop that is started on the last of `edges`, in its given direction, and leaves `rest`. */
  ghost predicate FirstLoop(edges: seq<Span>, loop: seq<Span>, rest: seq<Span>) {
    && edges != [] && ClosesAtTheEnd(loop) && loop[0] == edges[|edges| - 1]
    && exists pools :: Grown(loop, pools) && pools[0] == edges[..|edges| - 1] && pools[|loop| - 1] == rest
  }

  predicate NotYetClosed(trail: seq<Span>) {
    trail != [] && forall k :: 0 <= k < |trail| - 1 ==> trail[k].end != trail[0].start
  }

  lemma GrownFurther(trail: seq<Span>, pools: seq<seq<Span>>, next: Span, rest: seq<Span>)
    requires trail != [] && Grown(trail, pools)
    requires Taken(pools[|trail| - 1], trail[|trail| - 1].end, next, rest)
    ensures Grown(trail + [next], pools + [rest])
  {
    hide Taken;
  }

  lemma {:induction false} WalkGrows(trail: seq<Span>, spans: seq<Span>, pools: seq<seq<Span>>)
      returns (pools': seq<seq<Span>>)
    requires NotYetClosed(trail) && Grown(trail, pools) && pools[|trail| - 1] == spans
    requires Walk(trail, spans).Some?
    ensures var (loop, rest) := Walk(trail, spans).value;
            && ClosesAtTheEnd(loop) && loop[0] == trail[0]
            && Grown(loop, pools') && pools'[0] == pools[0] && pools'[|loop| - 1] == rest
    decreases |spans|
  {
    hide Grown, Taken;
    if Closed(trail) {
      pools' := pools;
    } else {
      var end := trail[|trail| - 1].end;
      var pick := PickNext(spans, end).value;
      var next, rest := Directed(spans[pick.index], pick.reversed), Without(spans, pick.index);
      assert Continues(spans, end, next, pick.index);
      assert Taken(spans, end, next, rest) by { TakenAt(spans, end, next, pick.index); }
      GrownFurther(trail, pools, next, rest);
      SameNumber(trail, pools);
      pools' := WalkGrows(trail + [next], rest, pools + [rest]);
    }
  }

  lemma TakenAt(pool: seq<Span>, p: Point, next: Span, i: nat)
    requires i < |pool| && Continues(pool, p, next, i)
    ensures Taken(pool, p, next, Without(pool, i))
  {
    hide Continues;
  }

  lemma SameNumber(loop: seq<Span>, pools: seq<seq<Span>>)
    requires Grown(loop, pools)
    ensures |pools| == |loop|
  {}

  lemma OneSpan(s: Span, pool: seq<Span>)
    ensures Grown([s], [pool])
  {}

  /** Every loop is the one that starts on the last edge the loops before it have left, in the
      direction in which that edge was given, goes on at each end with the edge that comes first, and
      stops as soon as it is closed. `lefts[k]` are the edges that `k` loops leave. */
  lemma {:induction false} AssembledGreedily(edges: seq<Span>) returns (lefts: seq<seq<Span>>)
    requires Assemble(edges).Some?
    ensures var loops := Assemble(edges).value;
            && |lefts| == |loops| + 1 && lefts[0] == edges && lefts[|loops|] == []
            && forall k :: 0 <= k < |loops| ==> FirstLoop(lefts[k], loops[k].spans, lefts[k + 1])
    decreases |edges|
  {
    if edges == [] {
      lefts := [edges];
    } else {
      var last := |edges| - 1;
      AssembleFirst(edges);
      OneSpan(edges[last], edges[..last]);
      var (loop, rest) := Walk([edges[last]], edges[..last]).value;
      var pools := WalkGrows([edges[last]], edges[..last], [edges[..last]]);
      assert FirstLoop(edges, loop, rest);
      hide FirstLoop, Walk, Assemble;
      var others := AssembledGreedily(rest);
      lefts := [edges] + others;
    }
  }

  // ------------------------------------------------------------ Euler's condition

  /** Moving an edge from the pool to the trail, in either direction, keeps every degree. */
  lemma PickKeepsDegree(p: Point, trail: seq<Span>, spans: seq<Span>, pick: Pick)
    requires pick.index < |spans|
    ensures Degree(p, trail + [Directed(spans[pick.index], pick.reversed)]) + Degree(p, Without(spans, pick.index))
            == Degree(p, trail) + Degree(p, spans)
  {
    hide Degree;
    var chosen := spans[pick.index];
    var next := Directed(chosen, pick.reversed);
    DegreeWithout(p, spans, pick.index);
    DegreeConcat(p, trail, [next]);
    DegreeOne(p, next);
    DegreeOne(p, chosen);
  }

  /** A walk that closes removes an even number of edge ends at every point. */
  lemma {:induction false} ClosedWalkParity(p: Point, trail: seq<Span>, spans: seq<Span>)
    requires trail != [] && Trail(trail)
    requires Walk(trail, spans).Some?
    ensures (Degree(p, trail) + Degree(p, spans)) % 2 == Degree(p, Walk(trail, spans).value.1) % 2
    decreases |spans|
  {
    hide Degree;
    if Closed(trail) {
      TrailDegree(p, trail);
    } else {
      var pick := PickNext(spans, trail[|trail| - 1].end).value;
      PickKeepsDegree(p, trail, spans, pick);
      ClosedWalkParity(p, trail + [Directed(spans[pick.index], pick.reversed)], Without(spans, pick.index));
    }
  }

  /** A walk that gets stuck does so at a point of odd degree. */
  lemma {:induction false} StuckWalkParity(trail: seq<Span>, spans: seq<Span>) returns (odd: Point)
    requires trail != [] && Trail(trail)
    requires Walk(trail, spans).None?
    ensures (Degree(odd, trail) + Degree(odd, spans)) % 2 == 1
    decreases |spans|
  {
    hide Degree;
    odd := trail[|trail| - 1].end;
    match PickNext(spans, odd)
    case None =>
      TrailDegree(odd, trail);
      DegreeAbsent(odd, spans);
    case Some(pick) =>
      odd := StuckWalkParity(trail + [Directed(spans[pick.index], pick.reversed)], Without(spans, pick.index));
      PickKeepsDegree(odd, trail, spans, pick);
  }

  lemma DegreeSplitLast(p: Point, edges: seq<Span>)
    requires edges != []
    ensures Degree(p, edges) == Degree(p, [edges[|edges| - 1]]) + Degree(p, edges[..|edges| - 1])
  {
    DegreeOne(p, edges[|edges| - 1]);
  }

  /** The walk the outer loop starts on a non-empty edge list. */
  function FirstWalk(edges: seq<Span>): (r: Option<(seq<Span>, seq<Span>)>)
    requires edges != []
    ensures r.Some? ==> |r.value.1| < |edges|
  {
    Walk([edges[|edges| - 1]], edges[..|edges| - 1])
  }

  lemma FirstWalkParity(edges: seq<Span>)
    requires edges != [] && FirstWalk(edges).Some?
    ensures EvenDegrees(FirstWalk(edges).value.1) <==> EvenDegrees(edges)
  {
    hide Degree, Walk;
    var rest := FirstWalk(edges).value.1;
    forall p
      ensures Degree(p, edges) % 2 == Degree(p, rest) % 2
    {
      DegreeSplitLast(p, edges);
      ClosedWalkParity(p, [edges[|edges| - 1]], edges[..|edges| - 1]);
    }
  }

  lemma FirstWalkStuck(edges: seq<Span>)
    requires edges != [] && FirstWalk(edges).None?
    ensures !EvenDegrees(edges)
  {
    hide Degree, Walk;
    var odd := StuckWalkParity([edges[|edges| - 1]], edges[..|edges| - 1]);
    DegreeSplitLast(odd, edges);
  }

  /** `assemble_loops` succeeds exactly on the edge lists in which every point
      occurs an even number of times. */
  lemma {:induction false} AssembleIffEvenDegrees(edges: seq<Span>)
    ensures Assemble(edges).Some? <==> EvenDegrees(edges)
    decreases |edges|
  {
    if edges != [] {
      hide EvenDegrees, Walk;
      if FirstWalk(edges).Some? {
        AssembleIffEvenDegrees(FirstWalk(edges).value.1);
        FirstWalkParity(edges);
      } else {
        FirstWalkStuck(edges);
      }
    }
  }

  // -------------------------------------------------------- import_board_outline

  /** The outlines `import_board_outline` stores: each assembled loop, canonically wound. */
  function BoardOutlines(edges: seq<Span>): Option<seq<Contour>> {
    match Assemble(edges)
    case None => None
    case Some(loops) => Some(Map(CanonicalWinding, loops))
  }

  method ImportOutlines(edges: seq<Span>) returns (r: Option<seq<Contour>>)
    ensures r == BoardOutlines(edges)
  {
    var loops := AssembleLoops(edges);
    if loops.None? {
      return None;
    }
    var outlines: seq<Contour> := [];
    for i := 0 to |loops.value|
      invariant outlines == Map(CanonicalWinding, loops.value)[..i]
    {
      var outline := CanonicalizeWinding(loops.value[i]);
      outlines := outlines + [outline];
    }
    assert Map(CanonicalWinding, loops.value)[..|loops.value|] == Map(CanonicalWinding, loops.value);
    return Some(outlines);
  }

  /** A board outline is never stored clockwise. */
  lemma BoardOutlinesNeverClockwise(edges: seq<Span>)
    requires BoardOutlines(edges).Some?
    ensures forall i :: 0 <= i < |BoardOutlines(edges).value| ==>
              OrientationOf(BoardOutlines(edges).value[i]) != Orientation.Clockwise
  {
    AssembledLoops(edges);
    var loops := Assemble(edges).value;
    forall i | 0 <= i < |loops|
      ensures OrientationOf(CanonicalWinding(loops[i])) != Orientation.Clockwise
    {
      CanonicalIsNeverClockwise(loops[i]);
    }
  }
}
