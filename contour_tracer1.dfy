/** ContourTracer1.py: the other version of the tracer. Its `find_boundary`
    compares each cell only with its upper-left diagonal neighbour, and its
    `count_lines` seeds every chain with the smallest remaining point and, on
    a match at index `i`, pops index 0. */
module ContourTracer1 {
  import opened Points
  import opened Grids
  import opened Chaining
  import ContourTracer

  // ---------------------------------------------------------------------
  // find_boundary

  /** The point `p = (x, y)`, read as row `y`, column `x`, holds `intense` and
      differs from its lower-right or its upper-left diagonal neighbour. */
  ghost predicate OnDiagonalChange(g: Grid, intense: int, p: Point) {
    InGrid(g, p.y, p.x) && g[p.y][p.x] == intense &&
    ((p.y + 1 < |g| && p.x + 1 < Cols(g) && g[p.y + 1][p.x + 1] != g[p.y][p.x]) ||
     (p.y >= 1 && p.x >= 1 && g[p.y - 1][p.x - 1] != g[p.y][p.x]))
  }

  /** How often the scan has emitted `p` once it has compared every diagonal
      pair whose lower-right cell comes before `(i, j)` in row-major order:
      once for the pair in which `p` is the upper-left cell and once for the
      pair in which it is the lower-right cell, each time `p` holds `intense`
      and the two cells of that pair differ. */
  ghost function EmitCount(g: Grid, intense: int, p: Point, i: int, j: int): nat {
    if !InGrid(g, p.y, p.x) || g[p.y][p.x] != intense then 0
    else
      (if p.y + 1 < |g| && p.x + 1 < Cols(g) && Before(p.y + 1, p.x + 1, i, j) &&
          g[p.y + 1][p.x + 1] != g[p.y][p.x] then 1 else 0) +
      (if p.y >= 1 && p.x >= 1 && Before(p.y, p.x, i, j) &&
          g[p.y - 1][p.x - 1] != g[p.y][p.x] then 1 else 0)
  }

  /** What `find_boundary` promises of its list `b` for intensity `intense`:
      a point is listed exactly when its cell holds `intense` and differs from
      a diagonal neighbour (so every listed point is in the image and holds
      `intense`, and none is listed whose diagonal neighbours both hold the
      same value); it is listed once per diagonal pair it differs in, so twice
      when it differs from both; and at most one point is listed per pair. */
  ghost predicate DiagonalBoundary(g: Grid, intense: int, b: seq<Point>)
    requires IsGrid(g) && |g| >= 1
  {
    (forall p :: p in b <==> OnDiagonalChange(g, intense, p)) &&
    (forall p :: multiset(b)[p] == EmitCount(g, intense, p, |g|, 0)) &&
    |b| <= (|g| - 1) * (Cols(g) - 1)
  }

  /** The points the scan emits for the diagonal pair whose lower-right cell
      is `(i, j)`: nothing when the two cells agree, otherwise whichever of
      them holds `intense`, upper-left first. */
  ghost function PairEmits(g: Grid, intense: int, i: int, j: int): seq<Point>
    requires InGrid(g, i, j) && i >= 1 && j >= 1
  {
    if g[i - 1][j - 1] == g[i][j] then []
    else
      (if g[i - 1][j - 1] == intense then [Point(j - 1, i - 1)] else []) +
      (if g[i][j] == intense then [Point(j, i)] else [])
  }

  /** Comparing the pair at `(i, j)` adds exactly its emissions to the counts. */
  lemma EmitStepAt(g: Grid, intense: int, i: int, j: int, p: Point)
    requires InGrid(g, i, j) && i >= 1 && j >= 1
    ensures EmitCount(g, intense, p, i, j + 1) ==
            EmitCount(g, intense, p, i, j) + multiset(PairEmits(g, intense, i, j))[p]
  {
    var e := PairEmits(g, intense, i, j);
    if g[i - 1][j - 1] != g[i][j] {
      assert multiset(e)[p] ==
        (if p == Point(j - 1, i - 1) && g[i - 1][j - 1] == intense then 1 else 0) +
        (if p == Point(j, i) && g[i][j] == intense then 1 else 0);
    }
  }

  /** `b` holds every point exactly as often as the scan has emitted it
      before reaching pair `(i, j)`. */
  ghost predicate CountsBefore(g: Grid, intense: int, b: seq<Point>, i: int, j: int) {
    forall p :: multiset(b)[p] == EmitCount(g, intense, p, i, j)
  }

  lemma EmitStep(g: Grid, intense: int, i: int, j: int, b: seq<Point>)
    requires InGrid(g, i, j) && i >= 1 && j >= 1
    requires CountsBefore(g, intense, b, i, j)
    ensures CountsBefore(g, intense, b + PairEmits(g, intense, i, j), i, j + 1)
    ensures |PairEmits(g, intense, i, j)| <= 1
  {
    forall p ensures multiset(b + PairEmits(g, intense, i, j))[p] == EmitCount(g, intense, p, i, j + 1) {
      EmitStepAt(g, intense, i, j, p);
    }
  }

  /** A point is emitted at all exactly when it holds `intense` and differs
      from a diagonal neighbour. */
  lemma EmitCountPositive(g: Grid, intense: int, p: Point)
    requires IsGrid(g)
    ensures EmitCount(g, intense, p, |g|, 0) > 0 <==> OnDiagonalChange(g, intense, p)
  {
  }

  /** Once every pair has been compared, the counts are the final ones and a
      point is listed exactly when it is on a diagonal change. */
  lemma CountsComplete(g: Grid, intense: int, b: seq<Point>, i: int)
    requires IsGrid(g) && |g| >= 1 && i == |g| && CountsBefore(g, intense, b, i, 1)
    ensures forall p :: p in b <==> OnDiagonalChange(g, intense, p)
    ensures forall p :: multiset(b)[p] == EmitCount(g, intense, p, |g|, 0)
  {
    forall p ensures p in b <==> OnDiagonalChange(g, intense, p) {
      EmitCountPositive(g, intense, p);
      assert p in b <==> multiset(b)[p] > 0;
    }
  }

  /** The body of the inner loop for pair `(i, j)`: when the cell differs from
      its upper-left neighbour, append whichever of the two holds `intense`,
      upper-left first. */
  method ComparePair(g: Grid, intense: int, i: int, j: int, b: seq<Point>) returns (b': seq<Point>)
    requires InGrid(g, i, j) && i >= 1 && j >= 1
    ensures b' == b + PairEmits(g, intense, i, j)
  {
    b' := b;
    if g[i - 1][j - 1] != g[i][j] {
      if g[i - 1][j - 1] == intense {
        b' := b' + [Point(j - 1, i - 1)];
      }
      if g[i][j] == intense {
        b' := b' + [Point(j, i)];
      }
    }
  }

  /** After the last pair of row `i`, the counts are those before row `i + 1`. */
  lemma RowEnd(g: Grid, intense: int, b: seq<Point>, i: int, j: int)
    requires IsGrid(g) && j >= Cols(g) && CountsBefore(g, intense, b, i, j)
    ensures CountsBefore(g, intense, b, i + 1, 1)
  {
    forall p ensures multiset(b)[p] == EmitCount(g, intense, p, i + 1, 1) {
      assert EmitCount(g, intense, p, i, j) == EmitCount(g, intense, p, i + 1, 1);
    }
  }

  /** `find_boundary(start)`: reads the intensity at `start` (numpy indexing,
      so `None` stands for IndexError), then compares every cell `(i, j)` with
      `i, j >= 1` against `(i - 1, j - 1)`; when they differ it emits whichever
      of the two holds the intensity, transposed as `(col, row)`. */
  method FindBoundary(g: Grid, start: Point) returns (res: Option<seq<Point>>)
    requires IsGrid(g)
    ensures res.None? <==> ContourTracer.Intensity(g, start).None?
    ensures res.Some? ==> |g| >= 1 && DiagonalBoundary(g, ContourTracer.Intensity(g, start).value, res.value)
  {
    var v := ContourTracer.Intensity(g, start);
    if v.None? {
      return None;
    }
    var intense := v.value;
    var rows, cols := |g|, Cols(g);
    var b := [];
    var i := 1;
    while i < rows
      invariant 1 <= i <= rows
      invariant CountsBefore(g, intense, b, i, 1)
      invariant |b| <= (i - 1) * (cols - 1)
    {
      var j := 1;
      while j < cols
        invariant 1 <= j <= cols
        invariant CountsBefore(g, intense, b, i, j)
        invariant |b| <= (i - 1) * (cols - 1) + (j - 1)
      {
        EmitStep(g, intense, i, j, b);
        b := ComparePair(g, intense, i, j, b);
        j := j + 1;
      }
      RowEnd(g, intense, b, i, j);
      assert (i - 1) * (cols - 1) + (cols - 1) == i * (cols - 1);
      i := i + 1;
    }
    CountsComplete(g, intense, b, i);
    return Some(b);
  }

  /** On the 3 x 3 image with a single 1 in the middle, `find_boundary` for
      intensity 1 lists the centre `(1, 1)` twice: it differs from both its
      upper-left and its lower-right neighbour. */
  lemma CentreListedTwice()
    ensures EmitCount([[0, 0, 0], [0, 1, 0], [0, 0, 0]], 1, Point(1, 1), 3, 0) == 2
  {
    var g: Grid := [[0, 0, 0], [0, 1, 0], [0, 0, 0]];
    assert IsGrid(g) && Cols(g) == 3;
  }

  // ---------------------------------------------------------------------
  // count_lines

  /** The inner `while i < len(arr)` loop of this version, entered with chain end
      `st` and scan index `i`: on a distance-1 match at `i` it pops `arr[0]`,
      not `arr[i]`, makes that the chain end and restarts at 0. So the points
      it absorbs are always a prefix of the list. */
  function AbsorbHead(arr: seq<Point>, st: Point, i: nat): (r: Absorbed)
    ensures r.path + r.rest == arr
    decreases |arr|, |arr| - i
  {
    if i >= |arr| then Absorbed(arr, [])
    else if Adjacent(arr[i], st) then
      var r := AbsorbHead(arr[1..], arr[0], 0);
      assert arr == [arr[0]] + arr[1..];
      Absorbed(r.rest, [arr[0]] + r.path)
    else
      AbsorbHead(arr, st, i + 1)
  }

  /** The loop stops only when no point left in the list is at distance 1
      from the chain end, given that the points before the scan index `i`
      were already found not adjacent to `st`. */
  lemma {:induction false} AbsorbHeadMaximal(arr: seq<Point>, st: Point, i: nat)
    requires i <= |arr| && NoneAdjacent(arr[..i], st)
    ensures NoneAdjacent(AbsorbHead(arr, st, i).rest, End(st, AbsorbHead(arr, st, i).path))
    decreases |arr|, |arr| - i
  {
    if i == |arr| {
      assert arr[..i] == arr;
    } else if Adjacent(arr[i], st) {
      var r := AbsorbHead(arr[1..], arr[0], 0);
      assert arr[1..][..0] == [];
      AbsorbHeadMaximal(arr[1..], arr[0], 0);
      assert End(st, [arr[0]] + r.path) == End(arr[0], r.path);
    } else {
      assert arr[..i + 1] == arr[..i] + [arr[i]];
      AbsorbHeadMaximal(arr, st, i + 1);
    }
  }

  /** Some point of `arr` at or after index `lo` is at distance 1 from `e`. */
  ghost predicate MatchFrom(arr: seq<Point>, e: Point, lo: nat) {
    exists m :: lo <= m < |arr| && Adjacent(arr[m], e)
  }

  /** Before the `k`-th of the first `n` pops, some point still in the list,
      `arr[k..]`, is at distance 1 from the chain end `([st] + arr)[k]`; for
      the first pop that point lies at or after the scan index `i`. */
  ghost predicate PopsMatched(arr: seq<Point>, st: Point, i: nat, n: nat)
    requires n <= |arr|
  {
    forall k :: 0 <= k < n ==> MatchFrom(arr, ([st] + arr)[k], if k == 0 then i else k)
  }

  /** Each `pop(0)` follows a distance-1 match somewhere in the list. */
  lemma {:induction false} AbsorbHeadMatched(arr: seq<Point>, st: Point, i: nat)
    ensures PopsMatched(arr, st, i, |AbsorbHead(arr, st, i).path|)
    decreases |arr|, |arr| - i
  {
    if i < |arr| {
      if Adjacent(arr[i], st) {
        var tail := arr[1..];
        var r := AbsorbHead(tail, arr[0], 0);
        AbsorbHeadMatched(tail, arr[0], 0);
        forall k | 0 <= k < 1 + |r.path|
          ensures MatchFrom(arr, ([st] + arr)[k], if k == 0 then i else k)
        {
          if k > 0 {
            assert ([arr[0]] + tail)[k - 1] == ([st] + arr)[k];
            MatchShift(arr, ([st] + arr)[k], k);
          }
        }
      } else {
        AbsorbHeadMatched(arr, st, i + 1);
        forall k | 0 <= k < |AbsorbHead(arr, st, i).path|
          ensures MatchFrom(arr, ([st] + arr)[k], if k == 0 then i else k)
        {
          if k == 0 {
            assert MatchFrom(arr, ([st] + arr)[0], i + 1);
            var m :| i + 1 <= m < |arr| && Adjacent(arr[m], ([st] + arr)[0]);
          }
        }
      }
    }
  }

  /** A match in the list after its head is a match in the list from index 1 on. */
  lemma MatchShift(arr: seq<Point>, e: Point, k: nat)
    requires arr != [] && k >= 1 && MatchFrom(arr[1..], e, if k - 1 == 0 then 0 else k - 1)
    ensures MatchFrom(arr, e, k)
  {
    var m :| (if k - 1 == 0 then 0 else k - 1) <= m < |arr| - 1 && Adjacent(arr[1..][m], e);
    assert arr[m + 1] == arr[1..][m];
  }

  /** The chains the outer loop builds, one per pass: the seed `arr.pop(0)`
      and the points `AbsorbHead` pops after it. Laid end to end they give
      back the list itself: each chain is a run of consecutive points. */
  function Chains(arr: seq<Point>): (cs: seq<seq<Point>>)
    ensures NonEmptyChains(cs)
    ensures Flatten(cs) == arr
    decreases |arr|
  {
    if arr == [] then []
    else
      var r := AbsorbHead(arr[1..], arr[0], 0);
      var tail := Chains(r.rest);
      FlattenCons([arr[0]] + r.path, tail);
      assert arr == [arr[0]] + r.path + r.rest;
      [[arr[0]] + r.path] + tail
  }

  /** No chain could be extended: its end is not adjacent to any point left
      for later passes. */
  lemma {:induction false} ChainsMaximal(arr: seq<Point>)
    ensures ContourTracer.Maximal(Chains(arr))
    decreases |arr|
  {
    if arr != [] {
      var r := AbsorbHead(arr[1..], arr[0], 0);
      var cs := Chains(arr);
      assert cs[0] == [arr[0]] + r.path && cs[1..] == Chains(r.rest);
      assert arr[1..][..0] == [];
      AbsorbHeadMaximal(arr[1..], arr[0], 0);
      assert cs[0][|cs[0]| - 1] == End(arr[0], r.path);
      ChainsMaximal(r.rest);
    }
  }

  /** In every chain each point after the seed was popped because some point
      still in the list, `Flatten(cs[c..])[k + 1..]`, was at distance 1 from
      the chain end `cs[c][k]` before it. */
  ghost predicate ChainPopsMatched(cs: seq<seq<Point>>) {
    cs != [] ==>
      (forall k :: 0 <= k < |cs[0]| - 1 ==> MatchFrom(Flatten(cs), cs[0][k], k + 1)) &&
      ChainPopsMatched(cs[1..])
  }

  /** Each pass pops a point only after a distance-1 match. */
  lemma {:induction false} ChainsMatched(arr: seq<Point>)
    ensures ChainPopsMatched(Chains(arr))
    decreases |arr|
  {
    if arr != [] {
      var r := AbsorbHead(arr[1..], arr[0], 0);
      var cs := Chains(arr);
      assert cs[0] == [arr[0]] + r.path && cs[1..] == Chains(r.rest);
      AbsorbHeadMatched(arr[1..], arr[0], 0);
      assert [arr[0]] + arr[1..] == arr;
      forall k | 0 <= k < |cs[0]| - 1 ensures MatchFrom(arr, cs[0][k], k + 1) {
        assert cs[0][k] == arr[k];
        MatchShift(arr, arr[k], k + 1);
      }
      ChainsMatched(r.rest);
    }
  }

  /** `count_lines(arr)` counts the chains of the sorted list. */
  function Lines(arr: seq<Point>): (cs: seq<seq<Point>>)
    ensures Sorted(Flatten(cs)) && multiset(Flatten(cs)) == multiset(arr)
  {
    Chains(Sort(arr))
  }

  /** `count_lines(arr)`: sorts the caller's list in place, then per pass pops
      the first point as seed and absorbs as `AbsorbHead` does, until the list
      is empty. Returns the number of passes and leaves the list empty. */
  method CountLines(arr: PointList) returns (count: nat)
    modifies arr
    ensures arr.items == []
    ensures count == |Lines(old(arr.items))|
  {
    arr.items := Sort(arr.items);
    ghost var chains := Chains(arr.items);
    count := 0;
    while |arr.items| != 0
      invariant count + |Chains(arr.items)| == |chains|
      decreases |arr.items|
    {
      count := count + 1;
      var i: nat := 0;
      var st := arr.items[0];
      arr.items := arr.items[1..];
      ghost var rest := AbsorbHead(arr.items, st, 0).rest;
      while i < |arr.items|
        invariant AbsorbHead(arr.items, st, i).rest == rest
        decreases |arr.items|, |arr.items| - i
      {
        if Adjacent(arr.items[i], st) {
          st := arr.items[0];
          arr.items := arr.items[1..];
          i := 0;
        } else {
          i := i + 1;
        }
      }
    }
  }

  /** The count is 0 exactly for an empty list, and otherwise at least 1 and at
      most the number of points. */
  lemma LinesCount(arr: seq<Point>)
    ensures arr == [] ==> |Lines(arr)| == 0
    ensures arr != [] ==> 1 <= |Lines(arr)| <= |arr|
  {
    FlattenAtLeastCount(Lines(arr));
  }

  /** Every chain starts at its smallest point, which is also no greater than
      any point of the later chains. */
  ghost predicate SeedsLeast(cs: seq<seq<Point>>) {
    cs != [] ==>
      (cs[0] != [] ==> forall q :: q in Flatten(cs) ==> Le(cs[0][0], q)) && SeedsLeast(cs[1..])
  }

  /** On a sorted list each pass is seeded with the smallest remaining point. */
  lemma {:induction false} ChainSeedsLeast(arr: seq<Point>)
    requires Sorted(arr)
    ensures SeedsLeast(Chains(arr))
    decreases |arr|
  {
    if arr != [] {
      var r := AbsorbHead(arr[1..], arr[0], 0);
      var cs := Chains(arr);
      assert cs[1..] == Chains(r.rest);
      assert r.rest == arr[1 + |r.path|..];
      assert Sorted(r.rest) by {
        var d := 1 + |r.path|;
        forall a, b | 0 <= a < b < |r.rest| ensures Le(r.rest[a], r.rest[b]) {
          assert r.rest[a] == arr[a + d] && r.rest[b] == arr[b + d];
        }
      }
      ChainSeedsLeast(r.rest);
      forall q | q in Flatten(cs) ensures Le(cs[0][0], q) {
        var m :| 0 <= m < |arr| && arr[m] == q;
        if m > 0 { assert Le(arr[0], arr[m]); }
      }
    }
  }

  // ---------------------------------------------------------------------
  // The pop(0) defect and its correction

  /** On `[(0,0), (0,5), (1,0)]` the match of `(1,0)` at index 1 pops `(0,5)`
      instead, so the first chain joins two points at distance 5 and is not
      linked. */
  lemma PopHeadJoinsDistantPoints()
    ensures Chains([Point(0, 0), Point(0, 5), Point(1, 0)]) == [[Point(0, 0), Point(0, 5)], [Point(1, 0)]]
    ensures !Linked(Chains([Point(0, 0), Point(0, 5), Point(1, 0)])[0])
  {
    var arr := [Point(0, 0), Point(0, 5), Point(1, 0)];
    PopHeadSteps();
    assert arr[1..] == [Point(0, 5), Point(1, 0)] && arr[0] == Point(0, 0);
    assert [arr[0]] + [Point(0, 5)] == [Point(0, 0), Point(0, 5)];
    AdjacentIffFourNeighbour(Point(0, 5), Point(0, 0));
  }

  /** The two passes of the inner loop on that list. */
  lemma PopHeadSteps()
    ensures AbsorbHead([Point(0, 5), Point(1, 0)], Point(0, 0), 0) == Absorbed([Point(1, 0)], [Point(0, 5)])
    ensures Chains([Point(1, 0)]) == [[Point(1, 0)]]
  {
    var rest := [Point(0, 5), Point(1, 0)];
    var last := [Point(1, 0)];
    AdjacentIffFourNeighbour(Point(0, 5), Point(0, 0));
    AdjacentIffFourNeighbour(Point(1, 0), Point(0, 0));
    assert AbsorbHead(last, Point(0, 5), 0) == Absorbed(last, []) by {
      AdjacentIffFourNeighbour(Point(1, 0), Point(0, 5));
      assert AbsorbHead(last, Point(0, 5), 1) == Absorbed(last, []);
    }
    assert AbsorbHead(rest, Point(0, 0), 1) == Absorbed(last, [Point(0, 5)]) by {
      assert rest[1..] == last;
    }
    assert last[1..] == [];
    assert AbsorbHead([], Point(1, 0), 0) == Absorbed([], []);
    assert Chains([]) == [];
    assert [last[0]] + [] == last;
  }

  /** This version's `count_lines` with the evident intent restored: on a match
      at index `i` it pops `arr[i]`, as ContourTracer.py does. */
  function CorrectedChains(arr: seq<Point>): (cs: seq<seq<Point>>)
    ensures cs == [] <==> arr == []
    ensures |cs| <= |arr|
    decreases |arr|
  {
    if arr == [] then []
    else
      var r := Absorb(arr[1..], arr[0], 0);
      [[arr[0]] + r.path] + CorrectedChains(r.rest)
  }

  /** Every chain is non-empty and links each point to the one before it. */
  predicate AllLinked(cs: seq<seq<Point>>) {
    forall k :: 0 <= k < |cs| ==> cs[k] != [] && Linked(cs[k])
  }

  /** With the correction every chain links each point to the one before it. */
  lemma {:induction false} CorrectedChainsLinked(arr: seq<Point>)
    ensures AllLinked(CorrectedChains(arr))
    decreases |arr|
  {
    if arr != [] {
      var r := Absorb(arr[1..], arr[0], 0);
      AbsorbLinked(arr[1..], arr[0], 0);
      CorrectedChainsLinked(r.rest);
      var tail := CorrectedChains(r.rest);
      var cs := CorrectedChains(arr);
      assert cs == [[arr[0]] + r.path] + tail;
      forall k | 1 <= k < |cs| ensures cs[k] != [] && Linked(cs[k]) {
        assert cs[k] == tail[k - 1];
      }
    }
  }

  /** The corrected chains together hold every point of the list once. */
  lemma {:induction false} CorrectedChainsCover(arr: seq<Point>)
    ensures multiset(Flatten(CorrectedChains(arr))) == multiset(arr)
    decreases |arr|
  {
    if arr != [] {
      var r := Absorb(arr[1..], arr[0], 0);
      CorrectedChainsCover(r.rest);
      FlattenCons([arr[0]] + r.path, CorrectedChains(r.rest));
      assert arr == [arr[0]] + arr[1..];
    }
  }

  /** On the same list the corrected chaining joins the neighbours `(0,0)` and
      `(1,0)` and leaves `(0,5)` on its own. */
  lemma CorrectedJoinsNeighbours()
    ensures CorrectedChains([Point(0, 0), Point(0, 5), Point(1, 0)]) == [[Point(0, 0), Point(1, 0)], [Point(0, 5)]]
  {
    var arr := [Point(0, 0), Point(0, 5), Point(1, 0)];
    CorrectedSteps();
    CorrectedSingleton();
    assert arr[1..] == [Point(0, 5), Point(1, 0)] && arr[0] == Point(0, 0);
    assert [arr[0]] + [Point(1, 0)] == [Point(0, 0), Point(1, 0)];
  }

  /** The passes of the corrected inner loop on that list. */
  lemma CorrectedSteps()
    ensures Absorb([Point(0, 5), Point(1, 0)], Point(0, 0), 0) == Absorbed([Point(0, 5)], [Point(1, 0)])
  {
    var rest := [Point(0, 5), Point(1, 0)];
    var last := [Point(0, 5)];
    AdjacentIffFourNeighbour(Point(0, 5), Point(0, 0));
    AdjacentIffFourNeighbour(Point(1, 0), Point(0, 0));
    assert RemoveAt(rest, 1) == last;
    assert Absorb(last, Point(1, 0), 0) == Absorbed(last, []) by {
      AdjacentIffFourNeighbour(Point(0, 5), Point(1, 0));
      assert Absorb(last, Point(1, 0), 1) == Absorbed(last, []);
    }
    assert Absorb(rest, Point(0, 0), 1) == Absorbed(last, [Point(1, 0)]);
  }

  /** A single point left over forms a chain of its own. */
  lemma CorrectedSingleton()
    ensures CorrectedChains([Point(0, 5)]) == [[Point(0, 5)]]
  {
    var last := [Point(0, 5)];
    assert last[1..] == [];
    assert Absorb([], Point(0, 5), 0) == Absorbed([], []);
    assert CorrectedChains([]) == [];
    assert [last[0]] + [] == last;
  }
}
