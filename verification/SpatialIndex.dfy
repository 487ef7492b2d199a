/** A uniform grid of buckets over axis-aligned boxes, and the brute-force scan it must equal. */
module SpatialIndexes {
  import opened Int64
  import opened Geometry

  /** Inclusive of both corners; empty when a minimum exceeds its maximum. */
  datatype BBox = BBox(min: Point, max: Point) {
    predicate IsEmpty() { min.x > max.x || min.y > max.y }

    predicate Contains(p: Point) {
      !IsEmpty() && p.x >= min.x && p.x <= max.x && p.y >= min.y && p.y <= max.y
    }

    predicate Intersects(other: BBox) {
      if IsEmpty() || other.IsEmpty() then false
      else
        && min.x <= other.max.x && max.x >= other.min.x
        && min.y <= other.max.y && max.y >= other.min.y
    }

    function UnionWith(other: BBox): BBox {
      if IsEmpty() then other
      else if other.IsEmpty() then this
      else BBox(Point(Min(min.x, other.min.x), Min(min.y, other.min.y)),
                Point(Max(max.x, other.max.x), Max(max.y, other.max.y)))
    }
  }

  function Min(a: i64, b: i64): i64 { if b < a then b else a }

  function Max(a: i64, b: i64): i64 { if a < b then b else a }

  /** The corner-by-corner test finds exactly the pairs of boxes with a point in common. */
  lemma IntersectsIffCommonPoint(a: BBox, b: BBox)
    ensures a.Intersects(b) <==> exists p :: a.Contains(p) && b.Contains(p)
  {
    if a.Intersects(b) {
      var p := Point(Max(a.min.x, b.min.x), Max(a.min.y, b.min.y));
      assert a.Contains(p) && b.Contains(p);
    }
  }

  ghost predicate Within(a: BBox, b: BBox) { forall p :: a.Contains(p) ==> b.Contains(p) }

  /** The union is the least box around both: it lies within `c` exactly when both do. */
  lemma UnionIsLeast(a: BBox, b: BBox, c: BBox)
    ensures Within(a.UnionWith(b), c) <==> Within(a, c) && Within(b, c)
  {
    CornersDecide(a, c);
    CornersDecide(b, c);
    CornersDecide(a.UnionWith(b), c);
  }

  lemma CornersDecide(a: BBox, c: BBox)
    ensures Within(a, c) <==> a.IsEmpty() || (c.Contains(a.min) && c.Contains(a.max))
  {
    if !a.IsEmpty() {
      assert a.Contains(a.min) && a.Contains(a.max);
    }
  }

  /** Division rounded toward negative infinity, built from the truncating operators. */
  function FloorDiv(a: int, b: int): int
    requires b != 0
  {
    var q, r := TruncDiv(a, b), TruncMod(a, b);
    if r != 0 && (r < 0) != (b < 0) then q - 1 else q
  }

  /** The quotient names the one interval `[b * q, b * (q + 1))` that holds `a`,
      also when `a` is negative, where truncation would merge two intervals into one. */
  lemma FloorDivIsFloor(a: int, b: int, q: int)
    requires b > 0
    ensures q == FloorDiv(a, b) <==> b * q <= a < b * (q + 1)
  {
    hide FloorDiv;
    var f := FloorDiv(a, b);
    FloorDivBounds(a, b);
    if q < f {
      MulMonotone(q + 1, f, b);
    } else if q > f {
      MulMonotone(f + 1, q, b);
    }
  }

  lemma FloorDivBounds(a: int, b: int)
    requires b > 0
    ensures b * FloorDiv(a, b) <= a < b * (FloorDiv(a, b) + 1)
  {
    hide TruncDiv, TruncMod;
    TruncDivMod(a, b);
    var q, f := TruncDiv(a, b), FloorDiv(a, b);
    assert b * (f + 1) == b * f + b;
    assert b * (q - 1) == b * q - b;
  }

  lemma FloorDivMonotone(a: int, c: int, b: int)
    requires b > 0 && a <= c
    ensures FloorDiv(a, b) <= FloorDiv(c, b)
  {
    hide FloorDiv;
    var f, g := FloorDiv(a, b), FloorDiv(c, b);
    FloorDivIsFloor(a, b, f);
    FloorDivIsFloor(c, b, g);
    if g < f {
      MulMonotone(g + 1, f, b);
    }
  }

  lemma FloorDivRange(a: i64, b: int)
    requires b > 0
    ensures Fits(FloorDiv(a, b))
    ensures FloorDiv(a, b) == INT64_MAX <==> b == 1 && a == INT64_MAX
  {
    hide FloorDiv;
    var f := FloorDiv(a, b);
    FloorDivIsFloor(a, b, f);
    if f >= 0 {
      MulMonotone(1, b, f);
      if f == INT64_MAX && b > 1 {
        MulMonotone(2, b, f);
      }
    } else {
      MulMonotone(1, b, -(f + 1));
      assert b * -(f + 1) == -(b * (f + 1));
    }
  }

  datatype Cell = Cell(cx: i64, cy: i64)

  /** The grid cells a non-empty box overlaps. */
  predicate Covers(box: BBox, size: int, c: Cell)
    requires size > 0
  {
    && !box.IsEmpty()
    && FloorDiv(box.min.x, size) <= c.cx <= FloorDiv(box.max.x, size)
    && FloorDiv(box.min.y, size) <= c.cy <= FloorDiv(box.max.y, size)
  }

  /** The cell loops end with `++` past the last cell, so that last cell must not be INT64_MAX. */
  predicate LoopsStop(box: BBox, size: int)
    requires size > 0
  {
    box.IsEmpty() || (FloorDiv(box.max.x, size) < INT64_MAX && FloorDiv(box.max.y, size) < INT64_MAX)
  }

  /** Only one-nanometre cells and a box at the very end of the range are excluded. */
  lemma LoopsStopUnlessAtLimit(box: BBox, size: int)
    requires size > 0
    ensures LoopsStop(box, size) <==>
            box.IsEmpty() || size > 1 || (box.max.x < INT64_MAX && box.max.y < INT64_MAX)
  {
    FloorDivRange(box.max.x, size);
    FloorDivRange(box.max.y, size);
  }

  /** Two intersecting boxes meet in a grid cell that both cover. */
  lemma IntersectingBoxesShareCell(a: BBox, b: BBox, size: int) returns (c: Cell)
    requires size > 0 && a.Intersects(b)
    ensures Covers(a, size, c) && Covers(b, size, c)
  {
    var x, y := Max(a.min.x, b.min.x), Max(a.min.y, b.min.y);
    FloorDivRange(x, size);
    FloorDivRange(y, size);
    c := Cell(FloorDiv(x, size), FloorDiv(y, size));
    CoversPoint(a, size, x, y);
    CoversPoint(b, size, x, y);
  }

  lemma CoversPoint(box: BBox, size: int, x: i64, y: i64)
    requires size > 0 && box.Contains(Point(x, y))
    requires Fits(FloorDiv(x, size)) && Fits(FloorDiv(y, size))
    ensures Covers(box, size, Cell(FloorDiv(x, size), FloorDiv(y, size)))
  {
    hide FloorDiv;
    FloorDivMonotone(box.min.x, x, size);
    FloorDivMonotone(x, box.max.x, size);
    FloorDivMonotone(box.min.y, y, size);
    FloorDivMonotone(y, box.max.y, size);
  }

  /** The insertion indices of the boxes covering a cell, oldest first. */
  function Filed(bounds: seq<BBox>, size: int, c: Cell): seq<nat>
    requires size > 0
  {
    if bounds == [] then []
    else
      var last := |bounds| - 1;
      Filed(bounds[..last], size, c) + if Covers(bounds[last], size, c) then [last] else []
  }

  lemma FiledGrows(bounds: seq<BBox>, box: BBox, size: int)
    requires size > 0
    ensures forall c :: Filed(bounds + [box], size, c)
                        == Filed(bounds, size, c) + if Covers(box, size, c) then [|bounds|] else []
  {
    hide Covers;
    assert (bounds + [box])[..|bounds|] == bounds;
  }

  lemma {:induction false} FiledMembers(bounds: seq<BBox>, size: int, c: Cell)
    requires size > 0
    ensures forall i :: i in Filed(bounds, size, c) <==> 0 <= i < |bounds| && Covers(bounds[i], size, c)
  {
    hide Covers;
    if bounds != [] {
      FiledMembers(bounds[..|bounds| - 1], size, c);
    }
  }

  /** The scan the index replaces: every insertion index whose box intersects the region, ascending. */
  function BruteForce(bounds: seq<BBox>, region: BBox): seq<nat> {
    if bounds == [] then []
    else
      var last := |bounds| - 1;
      BruteForce(bounds[..last], region) + if bounds[last].Intersects(region) then [last] else []
  }

  predicate Ascending(s: seq<nat>) { forall i, j :: 0 <= i < j < |s| ==> s[i] < s[j] }

  predicate Sorted(s: seq<nat>) { forall i, j :: 0 <= i < j < |s| ==> s[i] <= s[j] }

  lemma {:induction false} BruteForceMembers(bounds: seq<BBox>, region: BBox)
    ensures forall i :: i in BruteForce(bounds, region) <==> 0 <= i < |bounds| && bounds[i].Intersects(region)
    ensures Ascending(BruteForce(bounds, region))
  {
    hide BBox.Intersects;
    if bounds != [] {
      var last := |bounds| - 1;
      var shorter := BruteForce(bounds[..last], region);
      BruteForceMembers(bounds[..last], region);
      assert forall i :: 0 <= i < |shorter| ==> shorter[i] in shorter;
    }
  }

  lemma NothingMeetsEmpty(bounds: seq<BBox>, region: BBox)
    requires region.IsEmpty()
    ensures forall i :: 0 <= i < |bounds| ==> !bounds[i].Intersects(region)
  {}

  /** A strictly ascending list is determined by its elements. */
  lemma {:induction false} AscendingIsUnique(s: seq<nat>, t: seq<nat>)
    requires Ascending(s) && Ascending(t)
    requires forall i :: i in s <==> i in t
    ensures s == t
  {
    if s == [] {
      assert forall i :: 0 <= i < |t| ==> t[i] in s;
    } else {
      assert s[|s| - 1] in t;
      var m, n := |s| - 1, |t| - 1;
      assert t[n] in s;
      assert s[m] == t[n];
      forall i
        ensures i in s[..m] <==> i in t[..n]
      {
        ButLast(s, i);
        ButLast(t, i);
      }
      AscendingIsUnique(s[..m], t[..n]);
      assert s == s[..m] + [s[m]];
      assert t == t[..n] + [t[n]];
    }
  }

  lemma ButLast(s: seq<nat>, i: nat)
    requires Ascending(s) && s != []
    ensures i in s[..|s| - 1] <==> i in s && i != s[|s| - 1]
  {
    assert s == s[..|s| - 1] + [s[|s| - 1]];
  }

  /** `std::ranges::sort`. */
  method Sort(s: seq<nat>) returns (r: seq<nat>)
    ensures Sorted(r) && multiset(r) == multiset(s)
    ensures forall i :: i in r <==> i in s
  {
    r := [];
    for n := 0 to |s|
      invariant Sorted(r) && multiset(r) == multiset(s[..n])
    {
      assert s[..n + 1] == s[..n] + [s[n]];
      r := Place(r, s[n]);
    }
    assert s[..|s|] == s;
    assert forall i :: i in r <==> i in multiset(r);
  }

  method Place(s: seq<nat>, v: nat) returns (r: seq<nat>)
    requires Sorted(s)
    ensures Sorted(r) && multiset(r) == multiset(s) + multiset{v}
  {
    hide Sorted;
    var k := |s|;
    while k > 0 && s[k - 1] > v
      invariant 0 <= k <= |s|
      invariant k < |s| ==> s[k] > v
    {
      k := k - 1;
    }
    r := s[..k] + [v] + s[k..];
    PlacedIsSorted(s, k, v);
    PlacedMultiset(s, k, v);
  }

  lemma PlacedIsSorted(s: seq<nat>, k: nat, v: nat)
    requires Sorted(s) && k <= |s|
    requires (k > 0 ==> s[k - 1] <= v) && (k < |s| ==> v < s[k])
    ensures Sorted(s[..k] + [v] + s[k..])
  {
    var r := s[..k] + [v] + s[k..];
    forall i, j | 0 <= i < j < |r|
      ensures r[i] <= r[j]
    {
      assert r[i] == if i < k then s[i] else if i == k then v else s[i - 1];
      assert r[j] == if j < k then s[j] else if j == k then v else s[j - 1];
    }
  }

  lemma PlacedMultiset(s: seq<nat>, k: nat, v: nat)
    requires k <= |s|
    ensures multiset(s[..k] + [v] + s[k..]) == multiset(s) + multiset{v}
  {
    assert s == s[..k] + s[k..];
  }

  /** `std::ranges::unique` and `erase`: of each run of equal neighbours, keep the first. */
  method Unique(s: seq<nat>) returns (r: seq<nat>)
    requires Sorted(s)
    ensures Ascending(r) && forall i :: i in r <==> i in s
  {
    r := [];
    for n := 0 to |s|
      invariant Ascending(r) && forall i :: i in r <==> i in s[..n]
      invariant r != [] ==> n > 0 && r[|r| - 1] == s[n - 1]
      invariant n > 0 ==> r != []
    {
      assert s[..n + 1] == s[..n] + [s[n]];
      if r == [] || r[|r| - 1] != s[n] {
        r := r + [s[n]];
      }
    }
    assert s[..|s|] == s;
  }

  class SpatialIndex {
    const cellSize: i64
    var bounds: seq<BBox>
    var cells: map<Cell, seq<nat>>

    /** Every bucket lists exactly the boxes covering its cell, and no bucket is empty. */
    ghost predicate Valid()
      reads this
    {
      && cellSize > 0
      && (forall c :: Bucket(cells, c) == Filed(bounds, cellSize, c))
      && (forall c :: c in cells ==> cells[c] != [])
    }

    static function Bucket(cells: map<Cell, seq<nat>>, c: Cell): seq<nat> {
      if c in cells then cells[c] else []
    }

    constructor (cellSize: i64)
      requires cellSize > 0
      ensures Valid() && this.cellSize == cellSize && bounds == []
    {
      this.cellSize := cellSize;
      bounds, cells := [], map[];
    }

    /** Cells visited so far by the two nested loops, which stand before `(cx, cy)`. */
    static ghost predicate Visited(c: Cell, cx0: int, cx: int, cy0: int, cy: int, cy1: int) {
      (cx0 <= c.cx < cx && cy0 <= c.cy <= cy1) || (c.cx == cx && cy0 <= c.cy < cy)
    }

    method Insert(box: BBox) returns (index: nat)
      requires Valid() && LoopsStop(box, cellSize)
      modifies this
      ensures Valid()
      ensures bounds == old(bounds) + [box] && index == |old(bounds)|
    {
      hide FloorDiv, Filed;
      index := |bounds|;
      bounds := bounds + [box];
      FiledGrows(old(bounds), box, cellSize);
      if box.IsEmpty() {
        return;
      }
      FloorDivRange(box.min.x, cellSize);
      FloorDivRange(box.max.x, cellSize);
      FloorDivRange(box.min.y, cellSize);
      FloorDivRange(box.max.y, cellSize);
      var cx0: i64, cx1: i64 := FloorDiv(box.min.x, cellSize), FloorDiv(box.max.x, cellSize);
      var cy0: i64, cy1: i64 := FloorDiv(box.min.y, cellSize), FloorDiv(box.max.y, cellSize);
      FloorDivMonotone(box.min.x, box.max.x, cellSize);
      FloorDivMonotone(box.min.y, box.max.y, cellSize);
      var cx := cx0;
      while cx <= cx1
        invariant cx0 <= cx <= cx1 + 1
        invariant bounds == old(bounds) + [box]
        invariant forall c :: c in cells ==> cells[c] != []
        invariant forall c :: Bucket(cells, c) == Filed(old(bounds), cellSize, c)
                                                  + if Visited(c, cx0, cx, cy0, cy0, cy1) then [index] else []
      {
        var cy := cy0;
        while cy <= cy1
          invariant cy0 <= cy <= cy1 + 1
          invariant bounds == old(bounds) + [box]
          invariant forall c :: c in cells ==> cells[c] != []
          invariant forall c :: Bucket(cells, c) == Filed(old(bounds), cellSize, c)
                                                    + if Visited(c, cx0, cx, cy0, cy, cy1) then [index] else []
        {
          var c := Cell(cx, cy);
          cells := cells[c := Bucket(cells, c) + [index]];
          cy := cy + 1;
        }
        cx := cx + 1;
      }
    }

    /** The two loops gather, in any order and with repeats, every box that shares a cell with the region. */
    method Candidates(region: BBox) returns (candidates: seq<nat>)
      requires Valid() && LoopsStop(region, cellSize) && !region.IsEmpty()
      ensures forall i :: i in candidates ==> i < |bounds|
      ensures forall i :: 0 <= i < |bounds| && bounds[i].Intersects(region) ==> i in candidates
    {
      hide FloorDiv, Filed, BBox.Intersects;
      FloorDivRange(region.min.x, cellSize);
      FloorDivRange(region.max.x, cellSize);
      FloorDivRange(region.min.y, cellSize);
      FloorDivRange(region.max.y, cellSize);
      var cx0: i64, cx1: i64 := FloorDiv(region.min.x, cellSize), FloorDiv(region.max.x, cellSize);
      var cy0: i64, cy1: i64 := FloorDiv(region.min.y, cellSize), FloorDiv(region.max.y, cellSize);
      FloorDivMonotone(region.min.x, region.max.x, cellSize);
      FloorDivMonotone(region.min.y, region.max.y, cellSize);
      candidates := [];
      var cx := cx0;
      while cx <= cx1
        invariant cx0 <= cx <= cx1 + 1
        invariant Gathered(cells, candidates, cx0, cx, cy0, cy0, cy1)
      {
        var cy := cy0;
        while cy <= cy1
          invariant cy0 <= cy <= cy1 + 1
          invariant Gathered(cells, candidates, cx0, cx, cy0, cy, cy1)
        {
          var c := Cell(cx, cy);
          GatherBucket(cells, candidates, cx0, cy0, cy1, c);
          if c in cells {
            candidates := candidates + cells[c];
          }
          cy := cy + 1;
        }
        cx := cx + 1;
      }
      GatheredIsEnough(region, candidates, cx0, cx1, cy0, cy1);
    }

    static ghost predicate Gathered(cells: map<Cell, seq<nat>>, candidates: seq<nat>,
                                    cx0: int, cx: int, cy0: int, cy: int, cy1: int) {
      && (forall c, i :: Visited(c, cx0, cx, cy0, cy, cy1) && i in Bucket(cells, c) ==> i in candidates)
      && (forall i :: i in candidates ==> exists c :: i in Bucket(cells, c))
    }

    static lemma GatherBucket(cells: map<Cell, seq<nat>>, candidates: seq<nat>,
                              cx0: int, cy0: int, cy1: int, c: Cell)
      requires Gathered(cells, candidates, cx0, c.cx, cy0, c.cy, cy1)
      ensures Gathered(cells, candidates + Bucket(cells, c), cx0, c.cx, cy0, c.cy + 1, cy1)
    {
      var more := candidates + Bucket(cells, c);
      forall d, i | Visited(d, cx0, c.cx, cy0, c.cy + 1, cy1) && i in Bucket(cells, d)
        ensures i in more
      {
        assert d == c || Visited(d, cx0, c.cx, cy0, c.cy, cy1);
      }
    }

    lemma GatheredIsEnough(region: BBox, candidates: seq<nat>, cx0: int, cx1: int, cy0: int, cy1: int)
      requires Valid() && !region.IsEmpty()
      requires cx0 == FloorDiv(region.min.x, cellSize) && cx1 == FloorDiv(region.max.x, cellSize)
      requires cy0 == FloorDiv(region.min.y, cellSize) && cy1 == FloorDiv(region.max.y, cellSize)
      requires Gathered(cells, candidates, cx0, cx1 + 1, cy0, cy0, cy1)
      ensures forall i :: i in candidates ==> i < |bounds|
      ensures forall i :: 0 <= i < |bounds| && bounds[i].Intersects(region) ==> i in candidates
    {
      hide FloorDiv, BBox.IsEmpty, Filed, BBox.Intersects;
      forall i | i in candidates
        ensures i < |bounds|
      {
        var c :| i in Bucket(cells, c);
        FiledMembers(bounds, cellSize, c);
      }
      forall i | 0 <= i < |bounds| && bounds[i].Intersects(region)
        ensures i in candidates
      {
        var c := IntersectingBoxesShareCell(bounds[i], region, cellSize);
        FiledMembers(bounds, cellSize, c);
        assert i in Bucket(cells, c);
        assert Visited(c, cx0, cx1 + 1, cy0, cy0, cy1);
      }
    }

    /** The exact test, applied to the candidates in order. */
    method Narrowed(candidates: seq<nat>, region: BBox) returns (result: seq<nat>)
      requires Ascending(candidates)
      requires forall i :: i in candidates ==> i < |bounds|
      ensures Ascending(result)
      ensures forall i :: i in result <==> i in candidates && bounds[i].Intersects(region)
    {
      hide BBox.Intersects;
      result := [];
      for n := 0 to |candidates|
        invariant Ascending(result)
        invariant forall k :: 0 <= k < |result| ==> n > 0 && result[k] <= candidates[n - 1]
        invariant forall i :: i in candidates[..n] ==> i in candidates
        invariant forall i :: i in result <==> i in candidates[..n] && bounds[i].Intersects(region)
      {
        assert candidates[..n + 1] == candidates[..n] + [candidates[n]];
        var idx := candidates[n];
        assert idx in candidates;
        if bounds[idx].Intersects(region) {
          result := result + [idx];
        }
      }
      assert candidates[..|candidates|] == candidates;
    }

    /** The bucketed search answers exactly what the brute-force scan would. */
    method Query(region: BBox) returns (result: seq<nat>)
      requires Valid() && LoopsStop(region, cellSize)
      ensures result == BruteForce(bounds, region)
    {
      hide FloorDiv, BBox.IsEmpty, Filed, BruteForce, Covers;
      BruteForceMembers(bounds, region);
      result := [];
      if region.IsEmpty() {
        NothingMeetsEmpty(bounds, region);
        AscendingIsUnique(result, BruteForce(bounds, region));
        return;
      }
      var candidates := Candidates(region);
      candidates := Sort(candidates);
      candidates := Unique(candidates);
      result := Narrowed(candidates, region);
      AscendingIsUnique(result, BruteForce(bounds, region));
    }
  }
}
