# ContourTracer in Dafny

This project models the core of a small image-analysis tool. The tool loads a
raw 8-bit image into a rectangular intensity array (`tess`, with shape
`image_dims`). It then does four things:

- finds the pixels of one intensity that sit on a change of intensity;
- lists the distinct intensities;
- computes the 8-connected (Moore) neighbourhood of a pixel;
- counts "lines", meaning chains of boundary points in which each point is at
  distance 1 from the one before it.

There are two versions of the `ContourTracer` class:

- `ContourTracer.py`, the version with the Moore-neighbourhood boundary;
- `ContourTracer1.py`, the other version. Its `find_boundary` compares only
  diagonal pairs, and its `count_lines` seeds each chain differently.

## Modules

- `Points` (`points.dfy`): the data model shared by both versions.
  - Coordinate tuples are `Point(x, y)`; the image shape is `Dims(rows, cols)`.
  - Python's `list.sort` on tuples is the lexicographic insertion sort `Sort`.
  - `list.remove` and `list.pop(i)` are `RemoveFirst` and `RemoveAt`.
  - The unit-distance test `sqrt(dx² + dy²) == 1` is `Adjacent`.
  - The caller's list, which `count_lines` empties in place, is the class
    `PointList`.
- `Grids` (`grids.dfy`): the image.
  - `tess` is a rectangular `seq<seq<Byte>>`, indexed `[row][col]`.
  - `image_dims` is its shape.
  - `Option` stands for a lookup that raises `IndexError`.
- `Moore` (`moore.dfy`): `moores_boundary`, which is identical in both files.
- `Chaining` (`chaining.dfy`): the pop-`i` inner loop of `count_lines` in
  `ContourTracer.py`, as the function `Absorb`.
- `ContourTracer` (`contour_tracer.dfy`): the methods of `ContourTracer.py`.
  - Each loop in the source is a Dafny method with loop invariants.
  - Each method's contract ties its result to a specification function or
    predicate.
  - `count_lines` is specified by `Lines`, the chain list it builds.
  - The lemmas prove what that chain list satisfies.
- `ContourTracer1` (`contour_tracer1.dfy`): the methods of
  `ContourTracer1.py`, plus the corrected chaining of the Findings section.

## Model

| member | source | states |
|---|---|---|
| Moore.MooresBoundary | ContourTracer.py:156-170 | The result holds exactly the in-bounds cells among the 8 around the input. Every cell is inside `0 <= x < dims[0]`, `0 <= y < dims[1]`. The cells follow the fixed offset order with no repeats, and there are at most 8. |
| Moore.CandidatesAreNeighbours | ContourTracer1.py:146-156 | `boundary_list` holds exactly the 8 neighbours, and element `k` is at offset position `k` of the fixed list. `moores_boundary` of this file is the same code, modelled once. |
| Moore.InDirectionOrderTail | ContourTracer.py:158-169 | Dropping the first cell of a list in offset order leaves a list in offset order, and the first cell comes before every later one. |
| Moore.InDirectionOrderCons | ContourTracer.py:158-169 | Putting a cell that comes before every cell of a list in offset order at its front keeps the order. |
| Moore.KeepAllInBounds | ContourTracer.py:167-169 | When every cell is in bounds, the filter keeps the whole list. |
| Moore.KeepNoneInBounds | ContourTracer.py:167-169 | When no cell is in bounds, the filter keeps nothing. |
| Moore.KeepInBounds | ContourTracer1.py:157-158 | The comprehension keeps exactly the in-bounds members and never lengthens the list. |
| Moore.KeepInBoundsOrdered | ContourTracer.py:167-169 | The filter keeps the relative order of the cells it keeps. |
| Moore.Direction | ContourTracer.py:158-165 | The offset index is below 8 exactly when the second cell is one of the 8 around the first. |
| Moore.MooresBoundaryDistinct | ContourTracer.py:158-169 | No cell is returned twice. |
| Moore.MooresBoundaryNeighbours | ContourTracer.py:157-165 | Every returned cell differs from the input and is within 1 of it in each coordinate. |
| Moore.InteriorHasEight | ContourTracer.py:158-169 | An interior cell gets all 8 neighbours, in the fixed order. |
| Moore.CornerHasThree | ContourTracer.py:158-169 | The corner `(0, 0)` of an image at least 2 x 2 gets exactly `(0,1), (1,0), (1,1)`. |
| Points.Adjacent | ContourTracer.py:133 | The distance test `sqrt(dx² + dy²) == 1` on integer coordinates, written as `dx² + dy² == 1`. |
| Points.AdjacentIffFourNeighbour | ContourTracer.py:133 | `dx² + dy² == 1` holds exactly between cells that share a side. |
| Points.AdjacentSymmetric | ContourTracer1.py:122 | The distance-1 test does not depend on the order of its arguments. |
| Points.Insert | ContourTracer.py:115 | One step of the sort: the new point is added once and nothing else changes. The list grows by one, and it starts with the new point or with the old head. |
| Points.InsertSorted | ContourTracer.py:115 | Inserting into a sorted list keeps it sorted. |
| Points.Sort | ContourTracer.py:115 | `arr.sort()` yields a lexicographically sorted permutation of the list. |
| Points.RemoveAt | ContourTracer.py:134 | `pop(i)` removes exactly the element at `i` and shifts the later ones down. |
| Points.RemoveAtSorted | ContourTracer.py:134 | `pop(i)` keeps a sorted list sorted. |
| Points.IndexOf | ContourTracer.py:131 | The position `remove` acts on holds `st`, and no earlier position does. |
| Points.RemoveFirst | ContourTracer.py:131 | `remove(st)` drops exactly one occurrence of `st`, and the list shrinks by one. |
| Points.RemoveFirstSorted | ContourTracer.py:131 | `remove(st)` keeps a sorted list sorted. |
| Points.FlattenCons | ContourTracer.py:117-137 | Laying a chain in front of the others puts its points first. |
| Points.FlattenAtLeastCount | ContourTracer.py:117-118 | Non-empty chains laid end to end hold at least as many points as there are chains. |
| ContourTracer.NumpyIndex | ContourTracer.py:92 | A numpy index is accepted exactly in `-n <= i < n`. The result is in range: the index itself, or a negative index counted back from the end (`i + n`). |
| ContourTracer.Intensity | ContourTracer.py:90-92 | `tess[start[0], start[1]]` raises IndexError (`None`) exactly outside numpy's index range. It is the cell itself when in bounds, and a negative row wraps to the end. |
| ContourTracer.SomeDiffersStep | ContourTracer.py:100-101 | Looking at one more neighbour finds a differing value exactly when one was found already or that neighbour differs. |
| ContourTracer.BoundaryIffSomeDiffers | ContourTracer.py:99-101 | A cell counts as a boundary cell exactly when it holds `intense` and one of the cells `moores_boundary` lists for it holds another value. |
| ContourTracer.VisitCell | ContourTracer.py:99-102 | After the neighbour loop for cell `(i, j)`, `(j, i)` has been appended exactly when the cell holds `intense`, some Moore neighbour holds another value, and `(j, i)` was not yet listed. |
| ContourTracer.VisitStep | ContourTracer.py:98-102 | Before cell `(i, j)` is visited, `(j, i)` is not in the list. After the visit, the list holds exactly the boundary cells scanned so far, in row-major order. |
| ContourTracer.RowStep | ContourTracer.py:97-98 | What holds at the end of row `i` holds at the start of row `i + 1`. |
| ContourTracer.FindBoundary | ContourTracer.py:94-103 | `(x, y)` is listed exactly when cell `(y, x)` holds `intense` and some in-bounds Moore neighbour differs. The list has no repeats and is in row-major order of discovery. |
| ContourTracer.CountIntensities | ContourTracer.py:172-186 | The list holds exactly the values that occur in the image, each once, in row-major order of first occurrence. |
| ContourTracer.OccursBeforeStep | ContourTracer.py:181-182 | Scanning one more cell adds exactly that cell's value to the values seen. |
| ContourTracer.OccursBeforeRow | ContourTracer.py:180-181 | The end of one row is the start of the next in the scan. |
| ContourTracer.DistinctBelow | ContourTracer.py:179-185 | A repeat-free list of values below `n` has at most `n` elements. |
| ContourTracer.IntensitiesFitTable | ContourTracer.py:179-185 | There are at most 256 distinct intensities. |
| ContourTracer.SeedIndex | ContourTracer.py:120-130 | The seed loop stops at the first point on the frame edge, or at the last point when none is on the edge. Each coordinate is tested against both `dims[0]-1` and `dims[1]-1`. |
| ContourTracer.IsEdge | ContourTracer.py:121-126 | The frame-edge test of the seed search: a coordinate is 0, or equals `dims[0] - 1` or `dims[1] - 1`. Both coordinates are compared with both bounds. |
| ContourTracer.FindSeed | ContourTracer.py:120-130 | The loop with `break` picks the point that `SeedIndex` names. |
| ContourTracer.SeedIndexRule | ContourTracer.py:115-130 | On the sorted list the seed is the least point on the frame edge if there is one, and otherwise the greatest point. |
| ContourTracer.SeedRuleSameElements | ContourTracer.py:131 | The seed rule depends only on which points remain, not on their arrangement. |
| ContourTracer.ChainSeeds | ContourTracer.py:117-131 | Every pass is seeded by that rule, applied to the points still in the list when the pass begins. |
| Chaining.Absorb | ContourTracer.py:132-137 | The inner loop splits the list into absorbed points and the rest. Every point is accounted for exactly once. |
| Chaining.AbsorbSorted | ContourTracer.py:132-137 | The points the inner loop leaves behind stay sorted. |
| Chaining.AbsorbLinked | ContourTracer.py:133-135 | Each absorbed point is at distance 1 from the chain end before it. |
| Chaining.AbsorbMaximal | ContourTracer.py:132-137 | When the loop ends, no remaining point is at distance 1 from the chain end. |
| Chaining.AbsorbFromSeedMaximal | ContourTracer.py:131-137 | Started with the seed as chain end and `i = 0`, the loop ends only when no remaining point is at distance 1 from the last point of the chain. |
| Chaining.NoneAdjacentSubset | ContourTracer.py:132-137 | If no point of a list is adjacent to the chain end, no point of a sub-collection is either. |
| ContourTracer.Pass | ContourTracer.py:119-137 | One pass of the outer loop yields a non-empty chain and leaves a shorter list. |
| ContourTracer.PassCover | ContourTracer.py:131-137 | A pass accounts for every point of the list exactly once, in its chain or in what is left. |
| ContourTracer.PassSorted | ContourTracer.py:131-137 | A pass leaves a sorted list sorted. |
| ContourTracer.PassLinked | ContourTracer.py:131-135 | Each point of a pass's chain is at distance 1 from the one before it. |
| ContourTracer.PassMaximal | ContourTracer.py:131-137 | A pass ends only when no point left in the list is at distance 1 from the end of its chain. |
| ContourTracer.PassSeed | ContourTracer.py:115-131 | On a sorted list, each pass's chain starts at the seed the seed rule picks from the list. |
| ContourTracer.Chains | ContourTracer.py:117-137 | The outer loop makes no chain exactly for an empty list, and never more chains than points. |
| ContourTracer.ChainsNonEmpty | ContourTracer.py:117-137 | Every pass produces a non-empty chain. |
| ContourTracer.ChainsCover | ContourTracer.py:117-137 | The chains together hold every point of the list exactly once. |
| ContourTracer.ChainsLinked | ContourTracer.py:132-135 | In every chain each point is at distance 1 from the one before it. |
| ContourTracer.ChainsMaximal | ContourTracer.py:132-137 | No chain could be extended: its end is not adjacent to any point left for later passes. |
| ContourTracer.Lines | ContourTracer.py:115-138 | The chains `count_lines` builds from the sorted list hold exactly the points of the caller's list. |
| ContourTracer.CountLines | ContourTracer.py:105-138 | The caller's list is left empty. The count is the number of chains the passes build from the sorted list. |
| ContourTracer.LinesCount | ContourTracer.py:115-138 | The count is 0 for an empty list; otherwise it is at least 1 and at most the number of points. |
| ContourTracer1.FindBoundary | ContourTracer1.py:101-112 | IndexError (`None`) happens exactly when `start` is outside numpy's range. Otherwise each point is listed exactly as often as `EmitCount` says: once for each diagonal pair it belongs to whose two cells differ, provided its cell holds `tess[start]`. So a point that differs from both diagonal neighbours is listed twice. A point is listed at all exactly when its cell holds that intensity and differs from a diagonal neighbour. There are at most `(rows-1)(cols-1)` entries. |
| ContourTracer1.ComparePair | ContourTracer1.py:107-111 | One comparison appends the emissions of pair `(i, j)`: nothing when the two cells agree, otherwise whichever of them holds the intensity, upper-left first. |
| ContourTracer1.EmitStepAt | ContourTracer1.py:104-111 | Comparing pair `(i, j)` raises the count of each point by exactly the number of times that pair emits it. |
| ContourTracer1.EmitStep | ContourTracer1.py:105-111 | After one more pair the list still holds every point as often as the scan has emitted it, and the pair added at most one point. |
| ContourTracer1.RowEnd | ContourTracer1.py:104-105 | The counts at the end of row `i` are those at the start of row `i + 1`. |
| ContourTracer1.EmitCountPositive | ContourTracer1.py:107-111 | A point is emitted at all exactly when its cell holds the intensity and differs from its upper-left or lower-right neighbour. |
| ContourTracer1.CountsComplete | ContourTracer1.py:104-112 | After the last row the list has the final counts, and its members are exactly the points on a diagonal change. |
| ContourTracer1.CentreListedTwice | ContourTracer1.py:107-111 | On the 3 x 3 image with a single 1 in the middle, the centre `(1, 1)` is listed twice for intensity 1. |
| ContourTracer1.AbsorbHead | ContourTracer1.py:121-127 | On a match the inner loop pops `arr[0]`, not `arr[i]`. So the absorbed points are always a prefix of the list. |
| ContourTracer1.AbsorbHeadMaximal | ContourTracer1.py:121-127 | The inner loop stops only when no point left in the list is at distance 1 from the chain end. |
| ContourTracer1.AbsorbHeadMatched | ContourTracer1.py:121-125 | Every `pop(0)` follows a distance-1 match: before the `k`-th pop some point still in the list is at distance 1 from the chain end. For the first pop that point is at or after the scan index. |
| ContourTracer1.ChainsMaximal | ContourTracer1.py:117-127 | No chain could be extended: its end is not adjacent to any point left for later passes. |
| ContourTracer1.ChainsMatched | ContourTracer1.py:117-125 | In every chain, each point after the seed was popped after some point still in the list matched the chain end before it. |
| ContourTracer1.Chains | ContourTracer1.py:117-127 | Each pass yields a non-empty chain, and the chains laid end to end give back the sorted list. |
| ContourTracer1.Lines | ContourTracer1.py:115-128 | The chains, laid end to end, are a sorted arrangement of exactly the points of the caller's list. |
| ContourTracer1.CountLines | ContourTracer1.py:114-128 | The caller's list is left empty. The count is the number of chains the passes build from the sorted list. |
| ContourTracer1.LinesCount | ContourTracer1.py:115-128 | The count is 0 for an empty list; otherwise it is at least 1 and at most the number of points. |
| ContourTracer1.ChainSeedsLeast | ContourTracer1.py:115-120 | On the sorted list each chain starts at the smallest point still in the list. |
| ContourTracer1.PopHeadJoinsDistantPoints | ContourTracer1.py:121-125 | On `[(0,0), (0,5), (1,0)]` the first chain is `[(0,0), (0,5)]`, whose points are 5 apart. |
| ContourTracer1.PopHeadSteps | ContourTracer1.py:121-127 | The two passes of the inner loop on that list. |
| ContourTracer1.CorrectedChains | ContourTracer1.py:114-128 | With `pop(i)` restored, the outer loop makes no chain exactly for an empty list, and never more chains than points. |
| ContourTracer1.CorrectedChainsLinked | ContourTracer1.py:114-128 | With `pop(i)` restored, every chain is non-empty and linked at distance 1. |
| ContourTracer1.CorrectedChainsCover | ContourTracer1.py:114-128 | With `pop(i)` restored, the chains hold every point of the list exactly once. |
| ContourTracer1.CorrectedJoinsNeighbours | ContourTracer1.py:121-125 | On the same list the corrected chaining joins `(0,0)` with `(1,0)` and leaves `(0,5)` on its own. |
| ContourTracer1.CorrectedSteps | ContourTracer1.py:121-127 | The steps of the corrected inner loop on that list: `(1,0)` is absorbed after `(0,0)` and `(0,5)` is left. |
| ContourTracer1.CorrectedSingleton | ContourTracer1.py:117-127 | A single point left over forms a chain of its own. |

## Left out

- `__init__` in both files is not modelled. It loads the raw file with numpy, reshapes and clips it, sets up logging and plots. The grid is a parameter instead, and `image_dims` is taken to be its shape.
- `count_contours` and `check_closed_contour` in both files are not modelled. Their string concatenation of an int raises TypeError, the contour walk can loop forever or index past its list, and `already_checked` is never filled, so they have no stable behaviour to state.
- `intensity` in `ContourTracer1.py` is not modelled. It is a static method that refers to `self`, so every call fails. `ContourTracer1.FindBoundary` reads `tess[start]` through `ContourTracer.Intensity`, which has the same indexing.
- `parse_arguments`, the `__main__` blocks, the printed frequency table, the `print` in `count_lines` and all logging calls are console and command-line code.
- `math.sqrt` is not modelled as floating point. For integer coordinates, `sqrt(d) == 1` holds exactly when `d == 1`, so the model uses `dx*dx + dy*dy == 1`.
- The docstring of `moores_boundary` lists the neighbours in a different order from the code. The model follows the code.
- ContourTracer.Intensity: a negative column also wraps, but its contract states the wrap-around only for the row.
- Termination of both `count_lines` loops is proved by the measure `(len(arr), len(arr) - i)` in the `decreases` clauses. No separate lemma states it.

## Findings

| source | as written | input that shows it | evidently intended | confidence | as-written member | corrected member |
|---|---|---|---|---|---|---|
| ContourTracer1.py:123 | On a distance-1 match at index `i`, `count_lines` pops `arr[0]` and makes it the chain end. | `[(0,0), (0,5), (1,0)]`: `(1,0)` matches `(0,0)`, but `(0,5)` is popped, so the chain `[(0,0), (0,5)]` joins points 5 apart. | Pop `arr[i]`, as `ContourTracer.py:134` does, so that every chain links points at distance 1. | high; not executed | ContourTracer1.PopHeadJoinsDistantPoints | ContourTracer1.CorrectedChainsLinked |
