/** Pixel coordinates, Python's ordering of 2-tuples, the in-place list the
    chaining counters consume, and the unit-distance test they use. */
module Points {

  /** A coordinate as the source's 2-tuples hold it: `x` is the tuple's first
      component, `y` its second. */
  datatype Point = Point(x: int, y: int)

  /** The shape of the image, `(rows, cols)`, as numpy's `shape` reports it. */
  datatype Dims = Dims(rows: int, cols: int)

  predicate InBounds(p: Point, dims: Dims) {
    0 <= p.x < dims.rows && 0 <= p.y < dims.cols
  }

  /** Python compares tuples lexicographically. */
  predicate Le(p: Point, q: Point) {
    p.x < q.x || (p.x == q.x && p.y <= q.y)
  }

  predicate Sorted(s: seq<Point>) {
    forall i, j :: 0 <= i < j < |s| ==> Le(s[i], s[j])
  }

  /** Inserts `p` before the first element it does not exceed. */
  function Insert(p: Point, s: seq<Point>): (r: seq<Point>)
    ensures multiset(r) == multiset(s) + multiset{p}
    ensures |r| == |s| + 1 && (r[0] == p || (s != [] && r[0] == s[0]))
  {
    if s == [] then [p]
    else if Le(p, s[0]) then [p] + s
    else
      assert s == [s[0]] + s[1..];
      [s[0]] + Insert(p, s[1..])
  }

  /** Inserting into a sorted sequence keeps it sorted. */
  lemma {:induction false} InsertSorted(p: Point, s: seq<Point>)
    requires Sorted(s)
    ensures Sorted(Insert(p, s))
  {
    if s != [] && !Le(p, s[0]) {
      var tail := Insert(p, s[1..]);
      InsertSorted(p, s[1..]);
      var r := [s[0]] + tail;
      assert Le(s[0], tail[0]);
      forall a, b | 0 <= a < b < |r| ensures Le(r[a], r[b]) {
        assert r[b] == tail[b - 1];
        if a > 0 { assert r[a] == tail[a - 1]; } else { assert Le(tail[0], tail[b - 1]); }
      }
    }
  }

  /** `list.sort()` on a list of 2-tuples: the sorted permutation. */
  function Sort(s: seq<Point>): (r: seq<Point>)
    ensures Sorted(r)
    ensures multiset(r) == multiset(s)
    ensures |r| == |s|
  {
    if s == [] then []
    else
      assert s == [s[0]] + s[1..];
      InsertSorted(s[0], Sort(s[1..]));
      Insert(s[0], Sort(s[1..]))
  }

  /** `math.sqrt(dx**2 + dy**2) == 1` with `dx`, `dy` the differences of `p`
      and `q`; for integers the square root is 1 exactly when its argument is. */
  predicate Adjacent(p: Point, q: Point) {
    var dx := p.x - q.x;
    var dy := p.y - q.y;
    dx * dx + dy * dy == 1
  }

  /** The unit-distance test holds exactly between 4-connected neighbours. */
  lemma AdjacentIffFourNeighbour(p: Point, q: Point)
    ensures Adjacent(p, q) <==>
              (p.x == q.x && (p.y == q.y + 1 || p.y + 1 == q.y)) ||
              (p.y == q.y && (p.x == q.x + 1 || p.x + 1 == q.x))
  {
    var dx := p.x - q.x;
    var dy := p.y - q.y;
    if dx <= -2 || dx >= 2 {
      assert dx * dx >= 4 by {
        if dx >= 2 { assert dx * dx >= 2 * dx; } else { assert dx * dx >= -2 * dx; }
      }
      assert dy * dy >= 0;
    } else if dy <= -2 || dy >= 2 {
      assert dy * dy >= 4 by {
        if dy >= 2 { assert dy * dy >= 2 * dy; } else { assert dy * dy >= -2 * dy; }
      }
      assert dx * dx >= 0;
    }
  }

  lemma AdjacentSymmetric(p: Point, q: Point)
    ensures Adjacent(p, q) <==> Adjacent(q, p)
  {
    AdjacentIffFourNeighbour(p, q);
    AdjacentIffFourNeighbour(q, p);
  }

  /** `s.pop(i)` leaves this sequence behind. */
  function RemoveAt(s: seq<Point>, i: nat): (r: seq<Point>)
    requires i < |s|
    ensures |r| == |s| - 1
    ensures multiset(r) + multiset{s[i]} == multiset(s)
    ensures forall k :: 0 <= k < i ==> r[k] == s[k]
    ensures forall k :: i <= k < |r| ==> r[k] == s[k + 1]
  {
    assert s == s[..i] + [s[i]] + s[i + 1..];
    s[..i] + s[i + 1..]
  }

  lemma RemoveAtSorted(s: seq<Point>, i: nat)
    requires i < |s| && Sorted(s)
    ensures Sorted(RemoveAt(s, i))
  {
    var r := RemoveAt(s, i);
    forall a, b | 0 <= a < b < |r| ensures Le(r[a], r[b]) {
      var a' := if a < i then a else a + 1;
      var b' := if b < i then b else b + 1;
      assert r[a] == s[a'] && r[b] == s[b'] && a' < b';
    }
  }

  /** The index `list.index(x)` finds: the first occurrence of `x`. */
  function IndexOf(s: seq<Point>, x: Point): (k: nat)
    requires x in s
    ensures k < |s| && s[k] == x
    ensures forall m :: 0 <= m < k ==> s[m] != x
  {
    if s[0] == x then 0 else 1 + IndexOf(s[1..], x)
  }

  /** `s.remove(x)`: drops the first occurrence of `x`. */
  function RemoveFirst(s: seq<Point>, x: Point): (r: seq<Point>)
    requires x in s
    ensures |r| == |s| - 1
    ensures multiset(r) + multiset{x} == multiset(s)
  {
    RemoveAt(s, IndexOf(s, x))
  }

  /** Removing a point keeps a sorted list sorted. */
  lemma RemoveFirstSorted(s: seq<Point>, x: Point)
    requires x in s && Sorted(s)
    ensures Sorted(RemoveFirst(s, x))
  {
    RemoveAtSorted(s, IndexOf(s, x));
  }

  /** Concatenation of a list of lists, in order. */
  function Flatten(cs: seq<seq<Point>>): seq<Point> {
    if cs == [] then [] else cs[0] + Flatten(cs[1..])
  }

  lemma FlattenCons(c: seq<Point>, cs: seq<seq<Point>>)
    ensures Flatten([c] + cs) == c + Flatten(cs)
  {
    assert ([c] + cs)[1..] == cs;
  }

  /** No chain in `cs` is empty. */
  predicate NonEmptyChains(cs: seq<seq<Point>>) {
    forall k :: 0 <= k < |cs| ==> cs[k] != []
  }

  lemma {:induction false} FlattenAtLeastCount(cs: seq<seq<Point>>)
    requires NonEmptyChains(cs)
    ensures |Flatten(cs)| >= |cs|
  {
    if cs != [] {
      assert forall k :: 0 <= k < |cs| - 1 ==> cs[1..][k] == cs[k + 1];
      FlattenAtLeastCount(cs[1..]);
    }
  }

  /** Each point of `c` after the first is at distance 1 from the one before
      it, measured as the source measures it (the new point minus the chain end). */
  predicate Linked(c: seq<Point>) {
    forall k :: 0 < k < |c| ==> Adjacent(c[k], c[k - 1])
  }

  /** The caller's Python list of points, which the counters sort and empty in
      place. */
  class PointList {
    var items: seq<Point>

    constructor (items: seq<Point>)
      ensures this.items == items
    {
      this.items := items;
    }
  }
}
