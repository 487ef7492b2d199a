/** Sums of an edge weight over the edges of a closed vertex list: the shoelace
    area and the ray-crossing count are both of this form. */
module CyclicSum {
  import opened Geometry
  import opened Seqs

  type Weight = (Point, Point) -> int

  /** The first `k` edges of the closed list `pts`, in the order the C++ loops visit them. */
  function EdgeSum(f: Weight, pts: seq<Point>, k: nat): int
    requires k <= |pts|
  {
    if k == 0 then 0 else EdgeSum(f, pts, k - 1) + f(pts[k - 1], pts[Next(k - 1, |pts|)])
  }

  function Cyclic(f: Weight, pts: seq<Point>): int { EdgeSum(f, pts, |pts|) }

  /** The edges of an open path. */
  function PathSum(f: Weight, path: seq<Point>): int {
    if |path| < 2 then 0 else PathSum(f, path[..|path| - 1]) + f(path[|path| - 2], path[|path| - 1])
  }

  /** The path that walks round `pts` once and returns to its first vertex. */
  function Loop(pts: seq<Point>): seq<Point>
  {
    if pts == [] then [] else pts + [pts[0]]
  }

  lemma {:induction false} EdgeSumIsPathSum(f: Weight, pts: seq<Point>, k: nat)
    requires pts != [] && k <= |pts|
    ensures EdgeSum(f, pts, k) == PathSum(f, Loop(pts)[..k + 1])
  {
    if k > 0 {
      EdgeSumIsPathSum(f, pts, k - 1);
      var path := Loop(pts)[..k + 1];
      assert path[..k] == Loop(pts)[..k];
      assert path[k] == pts[Next(k - 1, |pts|)];
    }
  }

  lemma CyclicIsPath(f: Weight, pts: seq<Point>)
    ensures Cyclic(f, pts) == PathSum(f, Loop(pts))
  {
    if pts != [] {
      EdgeSumIsPathSum(f, pts, |pts|);
      assert Loop(pts)[..|pts| + 1] == Loop(pts);
    }
  }

  /** A path through `x` splits at `x`. */
  lemma {:induction false} PathSplit(f: Weight, a: seq<Point>, x: Point, b: seq<Point>)
    ensures PathSum(f, a + [x] + b) == PathSum(f, a + [x]) + PathSum(f, [x] + b)
  {
    if b == [] {
      assert a + [x] + b == a + [x];
    } else {
      var n := |b| - 1;
      PathSplit(f, a, x, b[..n]);
      var whole, tail := a + [x] + b, [x] + b;
      assert whole[..|whole| - 1] == a + [x] + b[..n];
      assert tail[..|tail| - 1] == [x] + b[..n];
    }
  }

  /** `f` is symmetric for `sign == 1` and antisymmetric for `sign == -1`. */
  ghost predicate Flips(f: Weight, sign: int) {
    (sign == 1 || sign == -1) && forall a, b :: f(b, a) == sign * f(a, b)
  }

  /** Walking a path backwards. */
  lemma {:induction false} PathReversed(f: Weight, sign: int, path: seq<Point>)
    requires Flips(f, sign)
    ensures PathSum(f, Reversed(path)) == sign * PathSum(f, path)
  {
    if |path| >= 2 {
      var n := |path|;
      var last, before := path[n - 1], path[n - 2];
      PathReversed(f, sign, path[..n - 1]);
      ReversedEnds(path);
      PathSplit(f, [last], before, Reversed(path[..n - 2]));
      LastEdge(f, path);
      OneEdge(f, last, before);
      hide PathSum, Reversed;
      assert f(last, before) == sign * f(before, last);
      SignTimesSum(sign, PathSum(f, path[..n - 1]), f(before, last));
    }
  }

  lemma ReversedEnds(path: seq<Point>)
    requires |path| >= 2
    ensures var n := |path|; var rest := Reversed(path[..n - 2]);
            Reversed(path) == [path[n - 1]] + [path[n - 2]] + rest && Reversed(path[..n - 1]) == [path[n - 2]] + rest
  {}

  lemma LastEdge(f: Weight, path: seq<Point>)
    requires |path| >= 2
    ensures var n := |path|; PathSum(f, path) == PathSum(f, path[..n - 1]) + f(path[n - 2], path[n - 1])
  {}

  lemma OneEdge(f: Weight, a: Point, b: Point)
    ensures PathSum(f, [a] + [b]) == f(a, b)
  {
    assert ([a] + [b])[..1] == [a];
  }

  lemma SignTimesSum(sign: int, x: int, y: int)
    requires sign == 1 || sign == -1
    ensures sign * (x + y) == sign * x + sign * y
  {}

  lemma LoopShifted(f: Weight, x: Point, y: Point, r: seq<Point>)
    ensures PathSum(f, [x] + [y] + (r + [x])) == PathSum(f, ([y] + r) + [x] + [y])
  {
    PathSplit(f, [x], y, r + [x]);
    PathSplit(f, [y] + r, x, [y]);
    assert [y] + (r + [x]) == ([y] + r) + [x];
  }

  lemma LoopShapes(x: Point, y: Point, r: seq<Point>)
    ensures Loop([x, y] + r) == [x] + [y] + (r + [x])
    ensures Loop([y] + r + [x]) == ([y] + r) + [x] + [y]
  {}

  lemma CyclicShifted(f: Weight, pts: seq<Point>)
    requires |pts| >= 2
    ensures Cyclic(f, pts[1..] + [pts[0]]) == Cyclic(f, pts)
  {
    var x, y, r := pts[0], pts[1], pts[2..];
    LoopShifted(f, x, y, r);
    LoopShapes(x, y, r);
    assert pts == [x, y] + r;
    assert pts[1..] + [x] == [y] + r + [x];
    CyclicIsPath(f, [x, y] + r);
    CyclicIsPath(f, [y] + r + [x]);
  }

  /** Starting the closed list at another vertex changes nothing. */
  lemma {:induction false} CyclicRotated(f: Weight, pts: seq<Point>, k: nat)
    requires k < |pts|
    ensures Cyclic(f, pts[k..] + pts[..k]) == Cyclic(f, pts)
  {
    if k == 0 {
      assert pts[0..] + pts[..0] == pts;
    } else {
      CyclicRotated(f, pts, k - 1);
      var before := pts[k - 1..] + pts[..k - 1];
      CyclicShifted(f, before);
      assert before[1..] + [before[0]] == pts[k..] + pts[..k];
    }
  }

  /** The vertices of a reversed closed contour: the same first vertex, then the rest backwards. */
  lemma ReversedStarts(c: Contour)
    requires Continuous(c)
    ensures Loop(Starts(ReverseContour(c))) == Reversed(Loop(Starts(c)))
  {
    var n := |c.spans|;
    var forward, backward := Loop(Starts(c)), Loop(Starts(ReverseContour(c)));
    hide Continuous, Loop, Starts;
    LoopLength(c);
    LoopLength(ReverseContour(c));
    if n > 0 {
      forall i | 0 <= i <= n
        ensures backward[i] == forward[n - i]
      {
        ReversedVertex(c, i);
      }
    }
    assert backward == Reversed(forward);
  }

  lemma LoopLength(c: Contour)
    ensures |Loop(Starts(c))| == if c.spans == [] then 0 else |c.spans| + 1
  {}

  lemma ReversedVertex(c: Contour, i: nat)
    requires Continuous(c) && c.spans != [] && i <= |c.spans|
    ensures |Loop(Starts(c))| == |Loop(Starts(ReverseContour(c)))| == |c.spans| + 1
    ensures Loop(Starts(ReverseContour(c)))[i] == Loop(Starts(c))[|c.spans| - i]
  {
    hide Continuous, Loop, Starts, ReverseContour;
    var n := |c.spans|;
    LoopAt(c, n - i);
    LoopAt(ReverseContour(c), i);
    FirstReversed(c, if i == n then 0 else i);
    Joint(c, if i == n then n - 1 else n - 1 - i);
  }

  lemma Joint(c: Contour, j: nat)
    requires Continuous(c) && j < |c.spans|
    ensures c.spans[j].end == c.spans[Next(j, |c.spans|)].start
  {}

  lemma LoopAt(c: Contour, k: nat)
    requires c.spans != [] && k <= |c.spans|
    ensures |Loop(Starts(c))| == |c.spans| + 1
    ensures Loop(Starts(c))[k] == c.spans[if k == |c.spans| then 0 else k].start
  {}

  lemma FirstReversed(c: Contour, i: nat)
    requires i < |c.spans|
    ensures ReverseContour(c).spans[i].start == c.spans[|c.spans| - 1 - i].end
  {}

  /** Reversing a closed contour keeps a symmetric sum and negates an antisymmetric one. */
  lemma CyclicReversed(f: Weight, sign: int, c: Contour)
    requires Continuous(c)
    requires Flips(f, sign)
    ensures Cyclic(f, Starts(ReverseContour(c))) == sign * Cyclic(f, Starts(c))
  {
    CyclicIsPath(f, Starts(ReverseContour(c)));
    CyclicIsPath(f, Starts(c));
    ReversedStarts(c);
    PathReversed(f, sign, Loop(Starts(c)));
  }

  /** A weight that is a difference of potentials telescopes away round a loop. */
  lemma {:induction false} PathTelescopes(f: Weight, v: Point -> int, path: seq<Point>)
    requires forall a, b :: f(a, b) == v(b) - v(a)
    requires path != []
    ensures PathSum(f, path) == v(path[|path| - 1]) - v(path[0])
  {
    if |path| >= 2 {
      PathTelescopes(f, v, path[..|path| - 1]);
    }
  }

  lemma CyclicTelescopes(f: Weight, v: Point -> int, pts: seq<Point>)
    requires forall a, b :: f(a, b) == v(b) - v(a)
    ensures Cyclic(f, pts) == 0
  {
    CyclicIsPath(f, pts);
    if pts != [] {
      PathTelescopes(f, v, Loop(pts));
    }
  }

  /** A sum round four vertices, term by term. */
  lemma SumOfFour(f: Weight, pts: seq<Point>)
    requires |pts| == 4
    ensures Cyclic(f, pts) == f(pts[0], pts[1]) + f(pts[1], pts[2]) + f(pts[2], pts[3]) + f(pts[3], pts[0])
  {
    assert EdgeSum(f, pts, 1) == f(pts[0], pts[1]);
    assert EdgeSum(f, pts, 2) == EdgeSum(f, pts, 1) + f(pts[1], pts[2]);
    assert EdgeSum(f, pts, 3) == EdgeSum(f, pts, 2) + f(pts[2], pts[3]);
  }
}
