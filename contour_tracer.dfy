/** ContourTracer.py: the grid lookups of the `ContourTracer` class — the
    intensity of a pixel, the cells of one intensity that touch a change of
    intensity, the distinct intensities of the image — and `count_lines`,
    which counts the chains of unit-distance points in a list of boundary
    points. The image is the class's `tess` array, passed in as `g`. */
module ContourTracer {
  import opened Points
  import opened Grids
  import opened Moore
  import opened Chaining

  /** numpy's rule for one index into an axis of length `n`: a negative index
      counts from the end, anything else out of range raises IndexError
      (`None`). */
  function NumpyIndex(i: int, n: int): (r: Option<nat>)
    requires n >= 0
    ensures r.Some? <==> -n <= i < n
    ensures r.Some? ==> r.value < n && (r.value == i || r.value == i + n)
  {
    if 0 <= i < n then Some(i)
    else if -n <= i < 0 then Some(i + n)
    else None
  }

  /** `intensity(start)`: `tess[start[0], start[1]]`, `None` for IndexError. */
  function Intensity(g: Grid, p: Point): (r: Option<Byte>)
    requires IsGrid(g)
    ensures r.Some? <==> -(|g| as int) <= p.x < |g| && -(Cols(g) as int) <= p.y < Cols(g)
    ensures InBounds(p, DimsOf(g)) ==> r == Some(g[p.x][p.y])
    ensures p.x < 0 && r.Some? ==> r.value == g[p.x + |g|][NumpyIndex(p.y, Cols(g)).value]
  {
    match (NumpyIndex(p.x, |g|), NumpyIndex(p.y, Cols(g)))
    case (Some(i), Some(j)) => Some(g[i][j])
    case _ => None
  }

  // ---------------------------------------------------------------------
  // find_boundary

  /** `q` is a cell of the image whose value is not `v`. */
  predicate Differs(g: Grid, q: Point, v: int) {
    IsGrid(g) && InBounds(q, DimsOf(g)) && g[q.x][q.y] != v
  }

  /** Cell `(i, j)` holds `intense` and some cell around it holds another value. */
  ghost predicate IsBoundaryCell(g: Grid, intense: int, i: int, j: int)
    requires InGrid(g, i, j)
  {
    g[i][j] == intense && exists q :: IsNeighbour(Point(i, j), q) && Differs(g, q, intense)
  }

  /** The emitted `(col, row)` points come in strictly increasing row-major order
      of their cells. */
  predicate RowMajor(b: seq<Point>) {
    forall a, c :: 0 <= a < c < |b| ==> Before(b[a].y, b[a].x, b[c].y, b[c].x)
  }

  /** One of the first `k` cells of `neigh` holds a value other than `v`. */
  ghost predicate SomeDiffers(g: Grid, neigh: seq<Point>, k: int, v: int) {
    exists t :: 0 <= t < k && t < |neigh| && Differs(g, neigh[t], v)
  }

  lemma SomeDiffersStep(g: Grid, neigh: seq<Point>, k: int, v: int)
    requires 0 <= k < |neigh|
    ensures SomeDiffers(g, neigh, k + 1, v) <==> SomeDiffers(g, neigh, k, v) || Differs(g, neigh[k], v)
  {
    if SomeDiffers(g, neigh, k + 1, v) && !Differs(g, neigh[k], v) {
      var t :| 0 <= t < k + 1 && t < |neigh| && Differs(g, neigh[t], v);
      assert t < k;
    }
  }

  /** A cell is a boundary cell exactly when it holds `intense` and one of the
      cells `moores_boundary` lists for it holds another value. */
  lemma BoundaryIffSomeDiffers(g: Grid, intense: int, i: int, j: int)
    requires InGrid(g, i, j)
    ensures var neigh := MooresBoundary(Point(i, j), DimsOf(g));
            IsBoundaryCell(g, intense, i, j) <==> g[i][j] == intense && SomeDiffers(g, neigh, |neigh|, intense)
  {
    var neigh := MooresBoundary(Point(i, j), DimsOf(g));
    if IsBoundaryCell(g, intense, i, j) {
      var q :| IsNeighbour(Point(i, j), q) && Differs(g, q, intense);
      assert q in neigh;
      var t :| 0 <= t < |neigh| && neigh[t] == q;
    }
    if g[i][j] == intense && SomeDiffers(g, neigh, |neigh|, intense) {
      var t :| 0 <= t < |neigh| && Differs(g, neigh[t], intense);
      assert neigh[t] in neigh;
    }
  }

  /** The body of the scan for cell `(i, j)`: for each Moore neighbour that
      differs, append `(j, i)` when the cell holds `intense` and `(j, i)` is
      not yet in the list. The cell is appended exactly when it is a boundary
      cell not yet listed. */
  method VisitCell(g: Grid, intense: int, i: int, j: int, b: seq<Point>) returns (b': seq<Point>)
    requires InGrid(g, i, j)
    ensures b' == if IsBoundaryCell(g, intense, i, j) && Point(j, i) !in b then b + [Point(j, i)] else b
  {
    var neigh := MooresBoundary(Point(i, j), DimsOf(g));
    b' := b;
    for k := 0 to |neigh|
      invariant b' == if g[i][j] == intense && Point(j, i) !in b && SomeDiffers(g, neigh, k, g[i][j])
                      then b + [Point(j, i)] else b
    {
      var q := neigh[k];
      assert q in neigh;
      SomeDiffersStep(g, neigh, k, g[i][j]);
      if g[i][j] != g[q.x][q.y] && g[i][j] == intense && Point(j, i) !in b' {
        b' := b' + [Point(j, i)];
      }
    }
    BoundaryIffSomeDiffers(g, intense, i, j);
  }

  /** `b` lists, in row-major order, exactly the boundary cells the scan has
      passed before reaching cell `(i, j)`. */
  ghost predicate ListedBefore(g: Grid, intense: int, b: seq<Point>, i: int, j: int) {
    (forall p :: p in b <==>
       InGrid(g, p.y, p.x) && Before(p.y, p.x, i, j) && IsBoundaryCell(g, intense, p.y, p.x)) &&
    RowMajor(b)
  }

  /** Visiting cell `(i, j)` extends the listing by that cell. */
  lemma VisitStep(g: Grid, intense: int, i: int, j: int, b: seq<Point>)
    requires InGrid(g, i, j) && ListedBefore(g, intense, b, i, j)
    ensures Point(j, i) !in b
    ensures ListedBefore(g, intense, if IsBoundaryCell(g, intense, i, j) then b + [Point(j, i)] else b, i, j + 1)
  {
    var here := Point(j, i);
    var b' := if IsBoundaryCell(g, intense, i, j) then b + [here] else b;
    forall p ensures p in b' <==>
                     InGrid(g, p.y, p.x) && Before(p.y, p.x, i, j + 1) && IsBoundaryCell(g, intense, p.y, p.x)
    {
      assert p in b' <==> p in b || (p == here && IsBoundaryCell(g, intense, i, j));
    }
    assert RowMajor(b') by {
      forall a, c | 0 <= a < c < |b'| ensures Before(b'[a].y, b'[a].x, b'[c].y, b'[c].x) {
        assert b'[a] == b[a] && b[a] in b;
        if c < |b| {
          assert b'[c] == b[c];
        }
      }
    }
  }

  /** The end of row `i` is the start of row `i + 1`. */
  lemma RowStep(g: Grid, intense: int, i: int, b: seq<Point>)
    requires ListedBefore(g, intense, b, i, Cols(g))
    ensures ListedBefore(g, intense, b, i + 1, 0)
  {
  }

  /** `find_boundary(intense)`: visits the cells row by row and emits the cell
      `(i, j)`, transposed as `(j, i)`, when it holds `intense` and some Moore
      neighbour holds a different value. Each such cell is emitted exactly
      once, in row-major order of discovery. */
  method FindBoundary(g: Grid, intense: int) returns (b: seq<Point>)
    requires IsGrid(g)
    ensures forall p :: p in b <==> InGrid(g, p.y, p.x) && IsBoundaryCell(g, intense, p.y, p.x)
    ensures RowMajor(b)
    ensures forall a, c :: 0 <= a < c < |b| ==> b[a] != b[c]
  {
    b := [];
    for i := 0 to |g|
      invariant ListedBefore(g, intense, b, i, 0)
    {
      for j := 0 to Cols(g)
        invariant ListedBefore(g, intense, b, i, j)
      {
        VisitStep(g, intense, i, j, b);
        b := VisitCell(g, intense, i, j, b);
      }
      RowStep(g, intense, i, b);
    }
  }

  // ---------------------------------------------------------------------
  // count_intensities

  /** Some cell of the image holds `v`. */
  ghost predicate Occurs(g: Grid, v: int) {
    exists i, j :: InGrid(g, i, j) && g[i][j] == v
  }

  /** Some cell visited before `(i, j)` in row-major order holds `v`. */
  ghost predicate OccursBefore(g: Grid, v: int, i: int, j: int) {
    exists i', j' :: InGrid(g, i', j') && Before(i', j', i, j) && g[i'][j'] == v
  }

  lemma OccursBeforeStep(g: Grid, v: int, i: int, j: int)
    requires InGrid(g, i, j)
    ensures OccursBefore(g, v, i, j + 1) <==> OccursBefore(g, v, i, j) || g[i][j] == v
  {
    if OccursBefore(g, v, i, j + 1) && g[i][j] != v {
      var i', j' :| InGrid(g, i', j') && Before(i', j', i, j + 1) && g[i'][j'] == v;
      assert Before(i', j', i, j);
    }
  }

  lemma OccursBeforeRow(g: Grid, v: int, i: int)
    requires IsGrid(g)
    ensures OccursBefore(g, v, i, Cols(g)) <==> OccursBefore(g, v, i + 1, 0)
  {
    if OccursBefore(g, v, i + 1, 0) {
      var i', j' :| InGrid(g, i', j') && Before(i', j', i + 1, 0) && g[i'][j'] == v;
      assert Before(i', j', i, Cols(g));
    }
  }

  /** The values of `s` are pairwise distinct. */
  predicate Distinct(s: seq<int>) {
    forall a, c :: 0 <= a < c < |s| ==> s[a] != s[c]
  }

  /** `count_intensities()`: the distinct intensities of the image, each once,
      in the row-major order of their first occurrence: every cell holding a
      later entry comes after some cell holding each earlier entry. */
  method CountIntensities(g: Grid) returns (ints: seq<Byte>)
    requires IsGrid(g)
    ensures forall v :: v in ints <==> Occurs(g, v)
    ensures Distinct(ints)
    ensures forall a, c, i, j :: 0 <= a < c < |ints| && InGrid(g, i, j) && g[i][j] == ints[c] ==>
              OccursBefore(g, ints[a], i, j)
  {
    ints := [];
    for i := 0 to |g|
      invariant forall v :: v in ints <==> OccursBefore(g, v, i, 0)
      invariant Distinct(ints)
      invariant forall a, c, i2, j2 :: 0 <= a < c < |ints| && InGrid(g, i2, j2) && Before(i2, j2, i, 0) && g[i2][j2] == ints[c] ==>
                  OccursBefore(g, ints[a], i2, j2)
    {
      for j := 0 to Cols(g)
        invariant forall v :: v in ints <==> OccursBefore(g, v, i, j)
        invariant Distinct(ints)
        invariant forall a, c, i2, j2 :: 0 <= a < c < |ints| && InGrid(g, i2, j2) && Before(i2, j2, i, j) && g[i2][j2] == ints[c] ==>
                    OccursBefore(g, ints[a], i2, j2)
      {
        forall v { OccursBeforeStep(g, v, i, j); }
        if g[i][j] !in ints {
          ints := ints + [g[i][j]];
        }
      }
      forall v { OccursBeforeRow(g, v, i); }
    }
    forall v | Occurs(g, v) ensures OccursBefore(g, v, |g|, 0) {
      var i, j :| InGrid(g, i, j) && g[i][j] == v;
      assert Before(i, j, |g|, 0);
    }
  }

  /** At most `n` distinct values lie in `[0, n)`. */
  lemma {:induction false} DistinctBelow(s: seq<int>, n: nat)
    requires Distinct(s)
    requires forall k :: 0 <= k < |s| ==> 0 <= s[k] < n
    ensures |s| <= n
  {
    if s != [] {
      assert 0 <= s[0] < n;
      if n - 1 in s {
        var k :| 0 <= k < |s| && s[k] == n - 1;
        var t := s[..k] + s[k + 1..];
        assert forall m :: 0 <= m < |t| ==> t[m] == if m < k then s[m] else s[m + 1];
        DistinctBelow(t, n - 1);
      } else {
        DistinctBelow(s, n - 1);
      }
    }
  }

  /** A repeat-free list of byte intensities has at most 256 entries: the image
      holds at most 256 distinct intensities. */
  lemma IntensitiesFitTable(ints: seq<Byte>)
    requires Distinct(ints)
    ensures |ints| <= 256
  {
    DistinctBelow(ints, 256);
  }

  // ---------------------------------------------------------------------
  // count_lines

  /** The frame-edge test of the seed search: each coordinate is compared with
      0 and with both `dims[0] - 1` and `dims[1] - 1`. */
  predicate IsEdge(p: Point, dims: Dims) {
    p.x == 0 || p.y == 0 ||
    p.x == dims.rows - 1 || p.y == dims.rows - 1 ||
    p.x == dims.cols - 1 || p.y == dims.cols - 1
  }

  /** The position the `for l in arr` seed search stops at: the first point on
      the frame edge, or the last point when none is. */
  function SeedIndex(arr: seq<Point>, dims: Dims): (k: nat)
    requires arr != []
    ensures k < |arr|
    ensures forall m :: 0 <= m < k ==> !IsEdge(arr[m], dims)
    ensures IsEdge(arr[k], dims) || k == |arr| - 1
  {
    if IsEdge(arr[0], dims) || |arr| == 1 then 0 else 1 + SeedIndex(arr[1..], dims)
  }

  /** What one pass of the outer loop produces: the chain and the list left. */
  datatype PassResult = PassResult(chain: seq<Point>, rest: seq<Point>)

  /** One pass of the outer `while len(arr) != 0` loop: the seed, removed with
      `arr.remove`, then the points `Absorb` pops. The pass takes at least the
      seed, so the list shrinks. */
  function Pass(arr: seq<Point>, dims: Dims): (p: PassResult)
    requires arr != []
    ensures p.chain != [] && |p.rest| < |arr|
  {
    var st := arr[SeedIndex(arr, dims)];
    var r := Absorb(RemoveFirst(arr, st), st, 0);
    PassResult([st] + r.path, r.rest)
  }

  /** A pass accounts for every point of the list once. */
  lemma PassCover(arr: seq<Point>, dims: Dims)
    requires arr != []
    ensures multiset(Pass(arr, dims).chain) + multiset(Pass(arr, dims).rest) == multiset(arr)
  {
    var st := arr[SeedIndex(arr, dims)];
    var r := Absorb(RemoveFirst(arr, st), st, 0);
    assert multiset([st] + r.path) == multiset{st} + multiset(r.path);
  }

  /** A pass leaves a sorted list sorted. */
  lemma PassSorted(arr: seq<Point>, dims: Dims)
    requires Sorted(arr) && arr != []
    ensures Sorted(Pass(arr, dims).rest)
  {
    var st := arr[SeedIndex(arr, dims)];
    RemoveFirstSorted(arr, st);
    AbsorbSorted(RemoveFirst(arr, st), st, 0);
  }

  /** Each point of a pass's chain is at distance 1 from the one before it. */
  lemma PassLinked(arr: seq<Point>, dims: Dims)
    requires arr != []
    ensures Linked(Pass(arr, dims).chain)
  {
    var st := arr[SeedIndex(arr, dims)];
    AbsorbLinked(RemoveFirst(arr, st), st, 0);
  }

  /** A pass stops only when no point left in the list is at distance 1 from
      the end of its chain. */
  lemma PassMaximal(arr: seq<Point>, dims: Dims)
    requires arr != []
    ensures var p := Pass(arr, dims);
            NoneAdjacent(p.rest, p.chain[|p.chain| - 1])
  {
    var st := arr[SeedIndex(arr, dims)];
    AbsorbFromSeedMaximal(RemoveFirst(arr, st), st);
  }

  /** The chains the outer loop builds from the current list, one per pass. */
  function Chains(arr: seq<Point>, dims: Dims): (cs: seq<seq<Point>>)
    ensures cs == [] <==> arr == []
    ensures |cs| <= |arr|
    decreases |arr|
  {
    if arr == [] then []
    else
      var p := Pass(arr, dims);
      [p.chain] + Chains(p.rest, dims)
  }

  /** Every pass produces a non-empty chain. */
  lemma {:induction false} ChainsNonEmpty(arr: seq<Point>, dims: Dims)
    ensures NonEmptyChains(Chains(arr, dims))
    decreases |arr|
  {
    if arr != [] {
      var p := Pass(arr, dims);
      var tail := Chains(p.rest, dims);
      ChainsNonEmpty(p.rest, dims);
      var cs := Chains(arr, dims);
      assert cs == [p.chain] + tail;
      forall k | 1 <= k < |cs| ensures cs[k] != [] {
        assert cs[k] == tail[k - 1];
      }
    }
  }

  /** Together the chains hold every point of the list exactly once. */
  lemma {:induction false} ChainsCover(arr: seq<Point>, dims: Dims)
    ensures multiset(Flatten(Chains(arr, dims))) == multiset(arr)
    decreases |arr|
  {
    if arr != [] {
      var p := Pass(arr, dims);
      PassCover(arr, dims);
      ChainsCover(p.rest, dims);
      FlattenCons(p.chain, Chains(p.rest, dims));
    }
  }

  /** `count_lines(arr)` counts the chains of the sorted list. */
  function Lines(arr: seq<Point>, dims: Dims): (cs: seq<seq<Point>>)
    ensures multiset(Flatten(cs)) == multiset(arr)
  {
    ChainsCover(Sort(arr), dims);
    Chains(Sort(arr), dims)
  }

  /** The `for l in arr` loop of one pass: it stops at the first point on the
      frame edge, and otherwise ends holding the last point. */
  method FindSeed(arr: seq<Point>, dims: Dims) returns (st: Point)
    requires arr != []
    ensures st == arr[SeedIndex(arr, dims)]
  {
    st := arr[0];
    var k := 0;
    while k < |arr|
      invariant 0 <= k <= |arr|
      invariant forall m :: 0 <= m < k ==> !IsEdge(arr[m], dims)
      invariant 0 < k ==> st == arr[k - 1]
    {
      st := arr[k];
      if IsEdge(st, dims) {
        break;
      }
      k := k + 1;
    }
  }

  /** `count_lines(arr)`: sorts the caller's list in place, then per pass picks
      the seed, removes it and absorbs the points chained to it, until the list
      is empty. Returns the number of passes and leaves the list empty. */
  method CountLines(arr: PointList, dims: Dims) returns (count: nat)
    modifies arr
    ensures arr.items == []
    ensures count == |Lines(old(arr.items), dims)|
  {
    arr.items := Sort(arr.items);
    ghost var chains := Chains(arr.items, dims);
    count := 0;
    while |arr.items| != 0
      invariant count + |Chains(arr.items, dims)| == |chains|
      decreases |arr.items|
    {
      ghost var before := arr.items;
      count := count + 1;
      var i: nat := 0;
      var st := FindSeed(arr.items, dims);
      arr.items := RemoveFirst(arr.items, st);
      ghost var rest := Absorb(arr.items, st, 0).rest;
      while i < |arr.items|
        invariant Absorb(arr.items, st, i).rest == rest
        decreases |arr.items|, |arr.items| - i
      {
        if Adjacent(arr.items[i], st) {
          st := arr.items[i];
          arr.items := RemoveAt(arr.items, i);
          i := 0;
        } else {
          i := i + 1;
        }
      }
    }
  }

  /** The count is 0 exactly for an empty list, and otherwise at least 1 and at
      most the number of points. */
  lemma LinesCount(arr: seq<Point>, dims: Dims)
    ensures arr == [] ==> |Lines(arr, dims)| == 0
    ensures arr != [] ==> 1 <= |Lines(arr, dims)| <= |arr|
  {
    var cs := Lines(arr, dims);
    ChainsNonEmpty(Sort(arr), dims);
    FlattenAtLeastCount(cs);
    ChainsCover(Sort(arr), dims);
    assert |Flatten(cs)| == |multiset(Flatten(cs))| == |arr|;
  }

  /** In every chain each point after the seed is at distance 1 from the point
      before it. */
  lemma {:induction false} ChainsLinked(arr: seq<Point>, dims: Dims)
    ensures forall c :: c in Chains(arr, dims) ==> Linked(c)
    decreases |arr|
  {
    if arr != [] {
      var p := Pass(arr, dims);
      PassLinked(arr, dims);
      ChainsLinked(p.rest, dims);
    }
  }

  /** No point of a later chain is at distance 1 from the last point of an
      earlier one. */
  ghost predicate Maximal(cs: seq<seq<Point>>) {
    cs != [] ==>
      (cs[0] != [] ==> NoneAdjacent(Flatten(cs[1..]), cs[0][|cs[0]| - 1])) && Maximal(cs[1..])
  }

  lemma MultisetMembers(s: seq<Point>, t: seq<Point>)
    requires multiset(s) == multiset(t)
    ensures forall q :: q in s ==> q in t
  {
    forall q | q in s ensures q in t {
      assert q in multiset(s);
    }
  }

  /** A chain ends only when no point left for the later passes is at
      distance 1 from its last point. */
  lemma {:induction false} ChainsMaximal(arr: seq<Point>, dims: Dims)
    ensures Maximal(Chains(arr, dims))
    decreases |arr|
  {
    if arr != [] {
      var p := Pass(arr, dims);
      var tail := Chains(p.rest, dims);
      var cs := Chains(arr, dims);
      assert cs[0] == p.chain && cs[1..] == tail;
      PassMaximal(arr, dims);
      ChainsCover(p.rest, dims);
      MultisetMembers(Flatten(tail), p.rest);
      NoneAdjacentSubset(Flatten(tail), p.rest, p.chain[|p.chain| - 1]);
      ChainsMaximal(p.rest, dims);
    }
  }

  /** The seed rule, for a seed `s` picked from the points `pts`: when some
      point lies on the frame edge, `s` is the least such point; otherwise `s`
      is the greatest point. */
  ghost predicate SeedRule(s: Point, pts: seq<Point>, dims: Dims) {
    s in pts &&
    ((exists q :: q in pts && IsEdge(q, dims)) ==>
       IsEdge(s, dims) && forall q :: q in pts && IsEdge(q, dims) ==> Le(s, q)) &&
    ((forall q :: q in pts ==> !IsEdge(q, dims)) ==> forall q :: q in pts ==> Le(q, s))
  }

  /** On a sorted list, the seed search picks the point the seed rule names. */
  lemma SeedIndexRule(arr: seq<Point>, dims: Dims)
    requires Sorted(arr) && arr != []
    ensures SeedRule(arr[SeedIndex(arr, dims)], arr, dims)
  {
    var k := SeedIndex(arr, dims);
    var st := arr[k];
    if exists q :: q in arr && IsEdge(q, dims) {
      forall q | q in arr && IsEdge(q, dims) ensures Le(st, q) {
        var m :| 0 <= m < |arr| && arr[m] == q;
        if k < m { assert Le(arr[k], arr[m]); }
      }
    } else {
      forall q | q in arr ensures Le(q, st) {
        var m :| 0 <= m < |arr| && arr[m] == q;
        if m < k { assert Le(arr[m], arr[k]); }
      }
    }
  }

  lemma SeedRuleSameElements(s: Point, pts: seq<Point>, pts': seq<Point>, dims: Dims)
    requires forall q :: q in pts <==> q in pts'
    requires SeedRule(s, pts, dims)
    ensures SeedRule(s, pts', dims)
  {
  }

  /** On a sorted list, a pass is seeded by the seed rule. */
  lemma PassSeed(arr: seq<Point>, dims: Dims)
    requires Sorted(arr) && arr != []
    ensures SeedRule(Pass(arr, dims).chain[0], arr, dims)
  {
    SeedIndexRule(arr, dims);
  }

  /** On a sorted list, every chain starts at the seed the rule picks from the
      points still in the list when its pass begins. */
  lemma {:induction false} ChainSeeds(arr: seq<Point>, dims: Dims)
    requires Sorted(arr)
    ensures var cs := Chains(arr, dims);
            NonEmptyChains(cs) && forall c :: 0 <= c < |cs| ==> SeedRule(cs[c][0], Flatten(cs[c..]), dims)
    decreases |arr|
  {
    var cs := Chains(arr, dims);
    if arr != [] {
      var p := Pass(arr, dims);
      ChainsNonEmpty(arr, dims);
      PassSorted(arr, dims);
      ChainSeeds(p.rest, dims);
      assert cs[1..] == Chains(p.rest, dims);
      forall c | 1 <= c < |cs| ensures SeedRule(cs[c][0], Flatten(cs[c..]), dims) {
        assert cs[c..] == cs[1..][c - 1..];
      }
      ChainsCover(arr, dims);
      assert cs[0..] == cs;
      MultisetMembers(Flatten(cs), arr);
      MultisetMembers(arr, Flatten(cs));
      PassSeed(arr, dims);
      SeedRuleSameElements(p.chain[0], arr, Flatten(cs), dims);
    }
  }
}
