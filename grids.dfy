/** The image the tracers read: a rectangular grid of 8-bit intensities,
    indexed `[row][col]`. */
module Grids {
  import opened Points

  datatype Option<+T> = None | Some(value: T)

  /** The `uint8` element type of the loaded array. */
  type Byte = v: int | 0 <= v < 256

  type Grid = seq<seq<Byte>>

  function Cols(g: Grid): nat {
    if |g| == 0 then 0 else |g[0]|
  }

  /** numpy arrays are rectangular: every row has the first row's length. */
  predicate IsGrid(g: Grid) {
    forall i :: 0 <= i < |g| ==> |g[i]| == Cols(g)
  }

  /** `tess.shape`. */
  function DimsOf(g: Grid): Dims {
    Dims(|g|, Cols(g))
  }

  /** The cell `(i, j)` exists. */
  predicate InGrid(g: Grid, i: int, j: int) {
    IsGrid(g) && 0 <= i < |g| && 0 <= j < Cols(g)
  }

  /** Row-major scan order: cell `(i1, j1)` is visited before cell `(i2, j2)`. */
  predicate Before(i1: int, j1: int, i2: int, j2: int) {
    i1 < i2 || (i1 == i2 && j1 < j2)
  }
}
