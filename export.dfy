/** `downloadImage`: every cell is filled as a `Scale` by `Scale` block on a
    `gridSize * Scale` square canvas that starts fully transparent. Encoding
    the canvas and clicking the download link are the browser's work. */
module Export {
  import opened Grids

  /** The scale both screens use. */
  const Scale: nat := 20

  datatype Rect = Rect(x: nat, y: nat, w: nat, h: nat)

  /** One `ctx.fillStyle = style; ctx.fillRect(...)` pair. */
  datatype Fill = Fill(style: string, rect: Rect)

  /** `fillRect(colIndex * scale, rowIndex * scale, scale, scale)`: the
      `Scale` by `Scale` square aligned on cell `(row, col)`. */
  function Block(row: nat, col: nat): (b: Rect)
    ensures b.w == Scale && b.h == Scale
    ensures b.x % Scale == 0 && b.y % Scale == 0
    ensures b.x / Scale == col && b.y / Scale == row
  {
    Rect(col * Scale, row * Scale, Scale, Scale)
  }

  predicate Covers(r: Rect, px: nat, py: nat)
  {
    r.x <= px < r.x + r.w && r.y <= py < r.y + r.h
  }

  /** The fills for one row, left to right. */
  function RowFills(row: seq<string>, r: nat): (fs: seq<Fill>)
    ensures |fs| == |row|
    ensures forall c :: 0 <= c < |row| ==> fs[c] == Fill(row[c], Block(r, c))
  {
    if row == [] then [] else RowFills(row[..|row| - 1], r) + [Fill(row[|row| - 1], Block(r, |row| - 1))]
  }

  /** The fills for the whole grid in `forEach` order, row by row: every cell
      gets its own block in its own colour. */
  function Fills(g: Grid): (fs: seq<Fill>)
    ensures forall r, c :: 0 <= r < |g| && 0 <= c < |g[r]| ==> Fill(g[r][c], Block(r, c)) in fs
  {
    if g == [] then []
    else
      var init, last := g[..|g| - 1], g[|g| - 1];
      assert forall r :: 0 <= r < |init| ==> init[r] == g[r];
      assert RowFills(last, |g| - 1)[0..] == RowFills(last, |g| - 1);
      Fills(init) + RowFills(last, |g| - 1)
  }

  /** The nested `forEach` that issues the fills. */
  method PaintCells(g: Grid) returns (ops: seq<Fill>)
    ensures ops == Fills(g)
  {
    ops := [];
    var r := 0;
    while r < |g|
      invariant 0 <= r <= |g|
      invariant ops == Fills(g[..r])
    {
      var row := g[r];
      ghost var before := ops;
      var c := 0;
      while c < |row|
        invariant 0 <= c <= |row|
        invariant ops == before + RowFills(row[..c], r)
      {
        ops := ops + [Fill(row[c], Block(r, c))];
        RowFillsStep(row, r, c);
        c := c + 1;
      }
      assert row[..c] == row;
      FillsStep(g, r);
      r := r + 1;
    }
    assert g[..r] == g;
  }

  lemma RowFillsStep(row: seq<string>, r: nat, c: nat)
    requires c < |row|
    ensures RowFills(row[..c + 1], r) == RowFills(row[..c], r) + [Fill(row[c], Block(r, c))]
  {
    assert row[..c + 1][..c] == row[..c];
  }

  lemma FillsStep(g: Grid, r: nat)
    requires r < |g|
    ensures Fills(g[..r + 1]) == Fills(g[..r]) + RowFills(g[r], r)
  {
    assert g[..r + 1][..r] == g[..r];
  }

  /** `downloadImage` on an `n` by `n` grid: the canvas size and the fills,
      which together paint every canvas point with the colour of the cell it
      lies in. */
  method Download(g: Grid, n: nat) returns (width: nat, height: nat, ops: seq<Fill>)
    requires IsGrid(g, n)
    ensures width == n * Scale && height == n * Scale
    ensures ops == Fills(g)
    ensures forall px: nat, py: nat :: px < width && py < height ==>
              StylesAt(ops, px, py) == [g[py / Scale][px / Scale]]
  {
    width := n * Scale;
    height := n * Scale;
    ops := PaintCells(g);
    forall px: nat, py: nat | px < width && py < height
      ensures StylesAt(ops, px, py) == [g[py / Scale][px / Scale]]
    {
      ExportTilesCanvas(g, n, px, py);
    }
  }

  /** The styles of the fills that touch the canvas point `(px, py)`, in the
      order they were issued. The canvas starts transparent and blocks are
      opaque rectangles, so a point touched by exactly one fill ends with
      that fill's colour. */
  function StylesAt(ops: seq<Fill>, px: nat, py: nat): seq<string>
  {
    if ops == [] then []
    else StylesAt(ops[..|ops| - 1], px, py)
         + (if Covers(ops[|ops| - 1].rect, px, py) then [ops[|ops| - 1].style] else [])
  }

  lemma {:induction false} StylesAtAppend(a: seq<Fill>, b: seq<Fill>, px: nat, py: nat)
    ensures StylesAt(a + b, px, py) == StylesAt(a, px, py) + StylesAt(b, px, py)
  {
    if b == [] {
      assert a + b == a;
    } else {
      var b' := b[..|b| - 1];
      assert (a + b)[..|a + b| - 1] == a + b';
      assert (a + b)[|a + b| - 1] == b[|b| - 1];
      StylesAtAppend(a, b', px, py);
    }
  }

  /** A block covers a point exactly when the point lies in that cell, cell
      coordinates being the point's coordinates divided by the scale. */
  lemma BlockCoversIff(row: nat, col: nat, px: nat, py: nat)
    ensures Covers(Block(row, col), px, py) <==> row == py / Scale && col == px / Scale
  {
  }

  /** The blocks of distinct cells share no point. */
  lemma BlocksDisjoint(r1: nat, c1: nat, r2: nat, c2: nat, px: nat, py: nat)
    requires (r1, c1) != (r2, c2)
    ensures !(Covers(Block(r1, c1), px, py) && Covers(Block(r2, c2), px, py))
  {
    BlockCoversIff(r1, c1, px, py);
    BlockCoversIff(r2, c2, px, py);
  }

  lemma {:induction false} RowStylesAt(row: seq<string>, r: nat, px: nat, py: nat)
    ensures StylesAt(RowFills(row, r), px, py)
            == if r == py / Scale && px / Scale < |row| then [row[px / Scale]] else []
  {
    if row != [] {
      var init := row[..|row| - 1];
      var fs := RowFills(row, r);
      assert fs[..|fs| - 1] == RowFills(init, r);
      RowStylesAt(init, r, px, py);
      BlockCoversIff(r, |row| - 1, px, py);
      if r == py / Scale && px / Scale < |init| {
        assert init[px / Scale] == row[px / Scale];
      }
    }
  }

  lemma {:induction false} GridStylesAt(g: Grid, n: nat, px: nat, py: nat)
    requires forall i :: 0 <= i < |g| ==> |g[i]| == n
    ensures var cy, cx := py / Scale, px / Scale;
            StylesAt(Fills(g), px, py) == if cy < |g| && cx < n then [g[cy][cx]] else []
  {
    if g != [] {
      var init := g[..|g| - 1];
      assert forall i :: 0 <= i < |init| ==> |init[i]| == n;
      GridStylesAt(init, n, px, py);
      LastRowStyles(g, n, px, py);
    }
  }

  /** The styles at a point are those of the rows above the last one, then
      those of the last row. */
  lemma LastRowStyles(g: Grid, n: nat, px: nat, py: nat)
    requires g != [] && forall i :: 0 <= i < |g| ==> |g[i]| == n
    ensures var init, cy, cx := g[..|g| - 1], py / Scale, px / Scale;
            StylesAt(Fills(g), px, py)
            == StylesAt(Fills(init), px, py)
               + (if cy == |g| - 1 && cx < n then [g[cy][cx]] else [])
  {
    var init, last := g[..|g| - 1], g[|g| - 1];
    assert |last| == n;
    assert Fills(g) == Fills(init) + RowFills(last, |g| - 1);
    StylesAtAppend(Fills(init), RowFills(last, |g| - 1), px, py);
    RowStylesAt(last, |g| - 1, px, py);
  }

  /** On the `n * Scale` square canvas every point is touched by exactly one
      fill, the one of the cell the point lies in: the blocks tile the canvas
      and the exported colour of the point is that cell's colour. */
  lemma ExportTilesCanvas(g: Grid, n: nat, px: nat, py: nat)
    requires IsGrid(g, n)
    requires px < n * Scale && py < n * Scale
    ensures var cy, cx := py / Scale, px / Scale;
            cy < n && cx < n && StylesAt(Fills(g), px, py) == [g[cy][cx]]
  {
    GridStylesAt(g, n, px, py);
  }

  /** No fill reaches outside the `n * Scale` square canvas. */
  lemma FillsInsideCanvas(g: Grid, n: nat, px: nat, py: nat)
    requires IsGrid(g, n)
    requires px >= n * Scale || py >= n * Scale
    ensures StylesAt(Fills(g), px, py) == []
  {
    GridStylesAt(g, n, px, py);
  }
}
