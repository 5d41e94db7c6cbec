/** `moores_boundary`, identical in both tracer files: the 8-connected
    neighbours of a coordinate, in a fixed order, clipped to the image. */
module Moore {
  import opened Points

  /** `q` is one of the 8 cells around `p`. */
  predicate IsNeighbour(p: Point, q: Point) {
    q != p && -1 <= q.x - p.x <= 1 && -1 <= q.y - p.y <= 1
  }

  /** The position of `q`'s offset from `p` in the code's fixed list
      (0,+1), (-1,+1), (-1,0), (-1,-1), (0,-1), (+1,-1), (+1,0), (+1,+1);
      8 when `q` is not a neighbour of `p`. */
  function Direction(p: Point, q: Point): (d: nat)
    ensures d < 8 <==> IsNeighbour(p, q)
  {
    var dx, dy := q.x - p.x, q.y - p.y;
    if dx == 0 && dy == 1 then 0
    else if dx == -1 && dy == 1 then 1
    else if dx == -1 && dy == 0 then 2
    else if dx == -1 && dy == -1 then 3
    else if dx == 0 && dy == -1 then 4
    else if dx == 1 && dy == -1 then 5
    else if dx == 1 && dy == 0 then 6
    else if dx == 1 && dy == 1 then 7
    else 8
  }

  /** `boundary_list`: `p_1` .. `p_8` before clipping. */
  function Candidates(p: Point): seq<Point> {
    var x, y := p.x, p.y;
    [Point(x, y + 1), Point(x - 1, y + 1), Point(x - 1, y), Point(x - 1, y - 1),
     Point(x, y - 1), Point(x + 1, y - 1), Point(x + 1, y), Point(x + 1, y + 1)]
  }

  /** The candidates are exactly the 8 neighbours, the `k`-th at direction `k`. */
  lemma CandidatesAreNeighbours(p: Point)
    ensures |Candidates(p)| == 8
    ensures forall k :: 0 <= k < 8 ==> Direction(p, Candidates(p)[k]) == k
    ensures forall q :: q in Candidates(p) <==> IsNeighbour(p, q)
    ensures InDirectionOrder(p, Candidates(p))
  {
    var r := Candidates(p);
    assert forall q :: IsNeighbour(p, q) ==> q == r[Direction(p, q)];
  }

  /** The list comprehension that keeps the in-bounds candidates, in order. */
  function KeepInBounds(s: seq<Point>, dims: Dims): (r: seq<Point>)
    ensures forall q :: q in r <==> q in s && InBounds(q, dims)
    ensures |r| <= |s|
  {
    if s == [] then []
    else if InBounds(s[0], dims) then [s[0]] + KeepInBounds(s[1..], dims)
    else KeepInBounds(s[1..], dims)
  }

  /** The cells of `s` come in strictly increasing direction around `p`. */
  predicate InDirectionOrder(p: Point, s: seq<Point>) {
    forall a, b :: 0 <= a < b < |s| ==> Direction(p, s[a]) < Direction(p, s[b])
  }

  lemma InDirectionOrderTail(p: Point, s: seq<Point>)
    requires s != [] && InDirectionOrder(p, s)
    ensures InDirectionOrder(p, s[1..])
    ensures forall q :: q in s[1..] ==> Direction(p, s[0]) < Direction(p, q)
  {
    var t := s[1..];
    forall a, b | 0 <= a < b < |t| ensures Direction(p, t[a]) < Direction(p, t[b]) {
      assert t[a] == s[a + 1] && t[b] == s[b + 1];
    }
    forall q | q in t ensures Direction(p, s[0]) < Direction(p, q) {
      var k :| 0 <= k < |t| && t[k] == q;
      assert s[k + 1] == q;
    }
  }

  lemma InDirectionOrderCons(p: Point, x: Point, t: seq<Point>)
    requires InDirectionOrder(p, t)
    requires forall q :: q in t ==> Direction(p, x) < Direction(p, q)
    ensures InDirectionOrder(p, [x] + t)
  {
    var r := [x] + t;
    forall a, b | 0 <= a < b < |r| ensures Direction(p, r[a]) < Direction(p, r[b]) {
      assert r[b] == t[b - 1] && t[b - 1] in t;
      if a > 0 {
        assert r[a] == t[a - 1];
      }
    }
  }

  /** Filtering keeps the relative order of what it keeps. */
  lemma {:induction false} KeepInBoundsOrdered(p: Point, s: seq<Point>, dims: Dims)
    requires InDirectionOrder(p, s)
    ensures InDirectionOrder(p, KeepInBounds(s, dims))
  {
    if s != [] {
      var t := s[1..];
      InDirectionOrderTail(p, s);
      KeepInBoundsOrdered(p, t, dims);
      if InBounds(s[0], dims) {
        InDirectionOrderCons(p, s[0], KeepInBounds(t, dims));
      }
    }
  }

  /** `moores_boundary(pixel_coordinates, image_dims)`: exactly the in-bounds
      cells around `p`, each at most once, ordered by the fixed offset list. */
  function MooresBoundary(p: Point, dims: Dims): (r: seq<Point>)
    ensures forall q :: q in r <==> InBounds(q, dims) && IsNeighbour(p, q)
    ensures InDirectionOrder(p, r)
    ensures |r| <= 8
  {
    var c := Candidates(p);
    CandidatesAreNeighbours(p);
    KeepInBoundsOrdered(p, c, dims);
    KeepInBounds(c, dims)
  }

  /** Distinct directions give distinct cells, so the result has no repeats. */
  lemma MooresBoundaryDistinct(p: Point, dims: Dims)
    ensures var r := MooresBoundary(p, dims);
            forall a, b :: 0 <= a < b < |r| ==> r[a] != r[b]
  {
  }

  /** Each neighbour differs from `p` and lies within 1 of it in each coordinate. */
  lemma MooresBoundaryNeighbours(p: Point, dims: Dims, q: Point)
    requires q in MooresBoundary(p, dims)
    ensures q != p
    ensures -1 <= q.x - p.x <= 1 && -1 <= q.y - p.y <= 1
  {
  }

  lemma {:induction false} KeepAllInBounds(s: seq<Point>, dims: Dims)
    requires forall q :: q in s ==> InBounds(q, dims)
    ensures KeepInBounds(s, dims) == s
  {
    if s != [] {
      assert forall q :: q in s[1..] ==> q in s;
      KeepAllInBounds(s[1..], dims);
      assert s == [s[0]] + s[1..];
    }
  }

  lemma {:induction false} KeepNoneInBounds(s: seq<Point>, t: seq<Point>, dims: Dims)
    requires forall q :: q in s ==> !InBounds(q, dims)
    ensures KeepInBounds(s + t, dims) == KeepInBounds(t, dims)
  {
    if s != [] {
      assert (s + t)[0] == s[0] && !InBounds(s[0], dims);
      assert (s + t)[1..] == s[1..] + t;
      assert forall q :: q in s[1..] ==> q in s;
      KeepNoneInBounds(s[1..], t, dims);
    } else {
      assert s + t == t;
    }
  }

  /** An interior cell has all 8 neighbours, in the fixed order. */
  lemma InteriorHasEight(p: Point, dims: Dims)
    requires 1 <= p.x < dims.rows - 1 && 1 <= p.y < dims.cols - 1
    ensures MooresBoundary(p, dims) == Candidates(p)
    ensures |MooresBoundary(p, dims)| == 8
  {
    CandidatesAreNeighbours(p);
    KeepAllInBounds(Candidates(p), dims);
  }

  /** The corner `(0, 0)` of an image at least 2 x 2 has exactly 3 neighbours. */
  lemma CornerHasThree(dims: Dims)
    requires dims.rows >= 2 && dims.cols >= 2
    ensures MooresBoundary(Point(0, 0), dims) == [Point(0, 1), Point(1, 0), Point(1, 1)]
  {
    var kept := [Point(1, 0), Point(1, 1)];
    var dropped := [Point(-1, 1), Point(-1, 0), Point(-1, -1), Point(0, -1), Point(1, -1)];
    var c := Candidates(Point(0, 0));
    assert c[1..] == dropped + kept;
    assert InBounds(c[0], dims);
    assert MooresBoundary(Point(0, 0), dims) == [c[0]] + KeepInBounds(dropped + kept, dims);
    KeepNoneInBounds(dropped, kept, dims);
    KeepAllInBounds(kept, dims);
  }
}
