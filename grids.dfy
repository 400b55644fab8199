/** The pixel grid both editor screens hold: rows of colour strings, with
    "transparent" for an empty cell. */
module Grids {
  import opened Colors

  type Grid = seq<seq<string>>

  datatype Tool = Draw | Erase

  /** The range of the grid-size slider. */
  const MinGridSize: nat := 8
  const MaxGridSize: nat := 100

  /** `g` has `n` rows of `n` cells each. */
  predicate IsGrid(g: Grid, n: nat)
  {
    |g| == n && forall i :: 0 <= i < n ==> |g[i]| == n
  }

  /** The fresh grid of `initializeGrid` and of the grid-size effect:
      `n` rows of `n` "transparent" cells. */
  function Blank(n: nat): (g: Grid)
    ensures IsGrid(g, n)
    ensures forall i, j :: 0 <= i < n && 0 <= j < n ==> g[i][j] == Transparent
  {
    seq(n, _ => seq(n, _ => Transparent))
  }

  /** The colour the active tool writes: the cell ends up empty exactly when
      erasing or drawing with "transparent". */
  function Paint(tool: Tool, color: string): (v: string)
    ensures v == Transparent <==> (tool == Erase || color == Transparent)
    ensures tool == Draw ==> v == color
  {
    match tool
    case Draw => color
    case Erase => Transparent
  }

  /** `newPixels[row][col] = v`: exactly that cell changes, the shape stays. */
  function WithCell(g: Grid, row: nat, col: nat, v: string): (h: Grid)
    requires row < |g| && col < |g[row]|
    ensures |h| == |g| && forall i :: 0 <= i < |g| ==> |h[i]| == |g[i]|
    ensures h[row][col] == v
    ensures forall i, j :: 0 <= i < |g| && 0 <= j < |g[i]| && (i != row || j != col) ==> h[i][j] == g[i][j]
  {
    g[row := g[row][col := v]]
  }
}
