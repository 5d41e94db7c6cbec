/** The greedy absorption step of `count_lines` in ContourTracer.py: starting
    from a chain end `st`, scan the list and pop every point at distance 1
    from the current end, making it the new end and restarting the scan. */
module Chaining {
  import opened Points

  /** What is left of the list, and the points absorbed, in order. */
  datatype Absorbed = Absorbed(rest: seq<Point>, path: seq<Point>)

  /** The end of a chain that started at `st` and absorbed `path`. */
  function End(st: Point, path: seq<Point>): Point {
    if path == [] then st else path[|path| - 1]
  }

  /** The inner `while i < len(arr)` loop, entered with chain end `st` and
      scan index `i`. On a match at `i` it pops `arr[i]`, which becomes the
      chain end, and restarts at 0. Every point ends up exactly once either
      left in the list or absorbed. */
  function Absorb(arr: seq<Point>, st: Point, i: nat): (r: Absorbed)
    ensures |r.rest| + |r.path| == |arr|
    ensures multiset(r.rest) + multiset(r.path) == multiset(arr)
    decreases |arr|, |arr| - i
  {
    if i >= |arr| then Absorbed(arr, [])
    else if Adjacent(arr[i], st) then
      var r := Absorb(RemoveAt(arr, i), arr[i], 0);
      Absorbed(r.rest, [arr[i]] + r.path)
    else
      Absorb(arr, st, i + 1)
  }

  /** What is left of a sorted list stays sorted. */
  lemma {:induction false} AbsorbSorted(arr: seq<Point>, st: Point, i: nat)
    requires Sorted(arr)
    ensures Sorted(Absorb(arr, st, i).rest)
    decreases |arr|, |arr| - i
  {
    if i < |arr| {
      if Adjacent(arr[i], st) {
        RemoveAtSorted(arr, i);
        AbsorbSorted(RemoveAt(arr, i), arr[i], 0);
      } else {
        AbsorbSorted(arr, st, i + 1);
      }
    }
  }

  /** Each absorbed point is at distance 1 from the chain end before it. */
  lemma {:induction false} AbsorbLinked(arr: seq<Point>, st: Point, i: nat)
    ensures Linked([st] + Absorb(arr, st, i).path)
    decreases |arr|, |arr| - i
  {
    if i >= |arr| {
    } else if Adjacent(arr[i], st) {
      var next := arr[i];
      var r := Absorb(RemoveAt(arr, i), next, 0);
      AbsorbLinked(RemoveAt(arr, i), next, 0);
      var c := [st] + ([next] + r.path);
      assert forall k :: 1 <= k < |c| ==> c[k] == ([next] + r.path)[k - 1];
    } else {
      AbsorbLinked(arr, st, i + 1);
    }
  }

  /** No point of `s` is at distance 1 from `p`. */
  predicate NoneAdjacent(s: seq<Point>, p: Point) {
    forall q :: q in s ==> !Adjacent(q, p)
  }

  lemma NoneAdjacentSubset(s: seq<Point>, t: seq<Point>, p: Point)
    requires forall q :: q in s ==> q in t
    requires NoneAdjacent(t, p)
    ensures NoneAdjacent(s, p)
  {
  }

  /** The chain stops only when no point left in the list is at distance 1
      from its end, given that the points before the scan index `i` were
      already found not adjacent to `st`. */
  lemma {:induction false} AbsorbMaximal(arr: seq<Point>, st: Point, i: nat)
    requires i <= |arr| && NoneAdjacent(arr[..i], st)
    ensures NoneAdjacent(Absorb(arr, st, i).rest, End(st, Absorb(arr, st, i).path))
    decreases |arr|, |arr| - i
  {
    if i == |arr| {
      assert arr[..i] == arr;
    } else if Adjacent(arr[i], st) {
      var next := arr[i];
      var r := Absorb(RemoveAt(arr, i), next, 0);
      AbsorbMaximal(RemoveAt(arr, i), next, 0);
      assert End(st, [next] + r.path) == End(next, r.path);
    } else {
      assert arr[..i + 1] == arr[..i] + [arr[i]];
      AbsorbMaximal(arr, st, i + 1);
    }
  }

  /** Started from a seed with the scan at 0, the chain `[st] + path` ends at a
      point no point left in the list is adjacent to. */
  lemma AbsorbFromSeedMaximal(arr: seq<Point>, st: Point)
    ensures var r := Absorb(arr, st, 0);
            NoneAdjacent(r.rest, ([st] + r.path)[|r.path|])
  {
    assert arr[..0] == [];
    AbsorbMaximal(arr, st, 0);
  }
}
