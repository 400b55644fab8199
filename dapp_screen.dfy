/** The editor of src/Dapp.tsx as an object whose handlers update its state
    in place. Unlike the first screen, releasing the mouse commits a stroke,
    Clear commits a blank grid instead of resetting the history, and an
    import overwrites every cell of the current grid. There is no palette. */
module DappScreen {
  import opened Grids
  import Timeline
  import Raster
  import Export

  /** `useState(16)`. */
  const InitialGridSize: nat := 16

  /** One mouse press on cell `(row, col)` as the page dispatches it: the
      cell's `onMouseDown` paints the cell, then the press bubbles to the grid
      container, whose `onMouseDown` paints cell `(0, 0)` with the same value.
      Both handlers write into the same row arrays, so both writes stay. */
  function PressAsDispatched(g: Grid, n: nat, row: nat, col: nat, v: string): (h: Grid)
    requires IsGrid(g, n) && row < n && col < n
    ensures IsGrid(h, n)
    ensures h[row][col] == v && h[0][0] == v
    ensures forall i, j :: 0 <= i < n && 0 <= j < n && (i, j) != (row, col) && (i, j) != (0, 0) ==>
              h[i][j] == g[i][j]
  {
    WithCell(WithCell(g, row, col, v), 0, 0, v)
  }

  /** A press on any other cell also changes cell `(0, 0)` whenever it held a
      different value: the top-left cell is painted by every first press. */
  lemma PressRepaintsOrigin(g: Grid, n: nat, row: nat, col: nat, v: string)
    requires IsGrid(g, n) && row < n && col < n
    requires (row, col) != (0, 0) && g[0][0] != v
    ensures PressAsDispatched(g, n, row, col, v) != WithCell(g, row, col, v)
  {
    assert PressAsDispatched(g, n, row, col, v)[0][0] != WithCell(g, row, col, v)[0][0];
  }

  class Editor {
    var gridSize: nat
    var color: string
    var isDrawing: bool
    var pixels: Grid
    var tool: Tool
    var history: seq<Grid>
    var historyIndex: int
    /** The live grid still shares its row arrays with `history[0]`, as it does
        from the grid-reset effect until `pixels` is next replaced by a new
        grid; a cell written in place then changes that snapshot as well. */
    var firstSnapshotShared: bool

    ghost predicate Valid()
      reads this
    {
      && MinGridSize <= gridSize <= MaxGridSize
      && IsGrid(pixels, gridSize)
      && Timeline.Valid(Log())
      && (forall k :: 0 <= k < |history| ==> IsGrid(history[k], gridSize))
      && (firstSnapshotShared ==> history[0] == pixels)
    }

    /** The history list and its cursor as one value. */
    function Log(): Timeline.History
      reads this
    {
      Timeline.History(history, historyIndex)
    }

    /** The state once the component has mounted and its grid effect has run. */
    constructor ()
      ensures Valid()
      ensures gridSize == InitialGridSize && color == "#000000" && tool == Draw && !isDrawing
      ensures pixels == Blank(InitialGridSize) && Log() == Timeline.Start(pixels)
      ensures firstSnapshotShared
    {
      gridSize := InitialGridSize;
      color := "#000000";
      isDrawing := false;
      tool := Draw;
      var newPixels := Blank(InitialGridSize);
      pixels := newPixels;
      history := [newPixels];
      historyIndex := 0;
      firstSnapshotShared := true;
    }

    /** The effect on `[gridSize]`: a blank grid that is also the only snapshot. */
    method ResetGrid()
      requires MinGridSize <= gridSize <= MaxGridSize
      modifies this`pixels, this`history, this`historyIndex, this`firstSnapshotShared
      ensures Valid()
      ensures pixels == Blank(gridSize) && Log() == Timeline.Start(pixels) && firstSnapshotShared
    {
      var newPixels := Blank(gridSize);
      pixels := newPixels;
      history := [newPixels];
      historyIndex := 0;
      firstSnapshotShared := true;
    }

    /** The range input sets `gridSize`; the effect re-runs only when the value
        actually changed. */
    method SetGridSize(n: nat)
      requires Valid() && MinGridSize <= n <= MaxGridSize
      modifies this`gridSize, this`pixels, this`history, this`historyIndex, this`firstSnapshotShared
      ensures Valid() && gridSize == n
      ensures n != old(gridSize) ==>
                pixels == Blank(n) && Log() == Timeline.Start(pixels) && firstSnapshotShared
      ensures n == old(gridSize) ==>
                pixels == old(pixels) && Log() == old(Log()) && firstSnapshotShared == old(firstSnapshotShared)
    {
      if n != gridSize {
        gridSize := n;
        ResetGrid();
      }
    }

    method SetTool(t: Tool)
      requires Valid()
      modifies this`tool
      ensures Valid() && tool == t
    {
      tool := t;
    }

    /** The colour input's `value`. */
    method SetColor(c: string)
      requires Valid()
      modifies this`color
      ensures Valid() && color == c
    {
      color := c;
    }

    /** `addToHistory(newPixels)`: slice up to the cursor, push a copy and move
        the cursor to the end. */
    method AddToHistory(g: Grid)
      requires Valid() && IsGrid(g, gridSize)
      modifies this`history, this`historyIndex
      ensures Valid()
      ensures Log() == Timeline.Commit(old(Log()), g)
    {
      var newHistory := history[..historyIndex + 1];
      newHistory := newHistory + [g];
      history := newHistory;
      historyIndex := |newHistory| - 1;
    }

    /** `newPixels[rowIndex][colIndex] = ...` on the shared row arrays. */
    method WriteCell(row: nat, col: nat)
      requires Valid() && row < gridSize && col < gridSize
      modifies this`pixels, this`history
      ensures Valid()
      ensures pixels == WithCell(old(pixels), row, col, Paint(tool, color))
      ensures history == if firstSnapshotShared then old(history)[0 := pixels] else old(history)
    {
      pixels := WithCell(pixels, row, col, Paint(tool, color));
      if firstSnapshotShared {
        history := history[0 := pixels];
      }
    }

    /** `handleMouseDown` (also `handleTouchStart` of a cell): start drawing
        and paint exactly that cell. */
    method MouseDown(row: nat, col: nat)
      requires Valid() && row < gridSize && col < gridSize
      modifies this`isDrawing, this`pixels, this`history
      ensures Valid() && isDrawing
      ensures pixels == WithCell(old(pixels), row, col, Paint(tool, color))
      ensures history == if firstSnapshotShared then old(history)[0 := pixels] else old(history)
    {
      isDrawing := true;
      WriteCell(row, col);
    }

    /** A mouse press on a cell: the cell's handler and then the container's
        `handleMouseDown(0, 0)`. */
    method PressCell(row: nat, col: nat)
      requires Valid() && row < gridSize && col < gridSize
      modifies this`isDrawing, this`pixels, this`history
      ensures Valid() && isDrawing
      ensures pixels == PressAsDispatched(old(pixels), gridSize, row, col, Paint(tool, color))
      ensures history == if firstSnapshotShared then old(history)[0 := pixels] else old(history)
    {
      MouseDown(row, col);
      MouseDown(0, 0);
    }

    /** `handleMouseOver`: paint the cell while drawing, otherwise nothing. */
    method MouseOver(row: nat, col: nat)
      requires Valid() && row < gridSize && col < gridSize
      modifies this`pixels, this`history
      ensures Valid()
      ensures !isDrawing ==> pixels == old(pixels) && history == old(history)
      ensures isDrawing ==> pixels == WithCell(old(pixels), row, col, Paint(tool, color))
      ensures isDrawing ==> history == if firstSnapshotShared then old(history)[0 := pixels] else old(history)
    {
      if !isDrawing {
        return;
      }
      WriteCell(row, col);
    }

    /** `handleMouseUp` (mouse up, mouse leave and touch end on the grid):
        commit exactly one entry when a stroke is in progress, then stop
        drawing. */
    method MouseUp()
      requires Valid()
      modifies this`isDrawing, this`history, this`historyIndex
      ensures Valid() && !isDrawing
      ensures old(isDrawing) ==> Log() == Timeline.Commit(old(Log()), pixels)
      ensures !old(isDrawing) ==> Log() == old(Log())
    {
      if isDrawing {
        AddToHistory(pixels);
      }
      isDrawing := false;
    }

    /** The image-load callback of `handleImageUpload`: every cell of the
        current grid, in place, gets its sample (alpha 0 included), and the
        result is committed as one history entry. */
    method ImportImage(sample: Raster.Sampler, alphaText: Raster.AlphaFormat)
      requires Valid()
      modifies this`pixels, this`history, this`historyIndex
      ensures Valid()
      ensures IsGrid(pixels, gridSize)
      ensures forall y, x :: 0 <= y < gridSize && 0 <= x < gridSize ==>
                pixels[y][x] == Raster.CellText(sample(x, y), alphaText)
      ensures var before := if firstSnapshotShared then old(history)[0 := pixels] else old(history);
              Log() == Timeline.Commit(Timeline.History(before, old(historyIndex)), pixels)
    {
      var newPixels := Raster.StretchInto(pixels, gridSize, sample, alphaText);
      pixels := newPixels;
      if firstSnapshotShared {
        history := history[0 := newPixels];
      }
      AddToHistory(newPixels);
    }

    /** `downloadImage` on the current grid. */
    method DownloadImage() returns (width: nat, height: nat, ops: seq<Export.Fill>)
      requires Valid()
      ensures width == gridSize * Export.Scale && height == gridSize * Export.Scale
      ensures ops == Export.Fills(pixels)
      ensures forall px: nat, py: nat :: px < width && py < height ==>
                Export.StylesAt(ops, px, py) == [pixels[py / Export.Scale][px / Export.Scale]]
    {
      width, height, ops := Export.Download(pixels, gridSize);
    }

    /** `clearCanvas`: show a fresh blank grid and commit it, so the drawing
        before the clear stays one undo away. */
    method ClearCanvas()
      requires Valid()
      modifies this`pixels, this`history, this`historyIndex, this`firstSnapshotShared
      ensures Valid() && !firstSnapshotShared
      ensures pixels == Blank(gridSize)
      ensures Log() == Timeline.Commit(old(Log()), pixels)
    {
      var newPixels := Blank(gridSize);
      pixels := newPixels;
      firstSnapshotShared := false;
      AddToHistory(newPixels);
    }

    /** `undo`: when the cursor is past the first entry, step back and show a
        copy of that snapshot; otherwise nothing changes. */
    method Undo()
      requires Valid()
      modifies this`historyIndex, this`pixels, this`firstSnapshotShared
      ensures Valid()
      ensures Log() == Timeline.Undo(old(Log()))
      ensures Timeline.CanUndo(old(Log())) ==> pixels == Timeline.Current(Log()) && !firstSnapshotShared
      ensures !Timeline.CanUndo(old(Log())) ==>
                pixels == old(pixels) && firstSnapshotShared == old(firstSnapshotShared)
    {
      if historyIndex > 0 {
        var newPixels := history[historyIndex - 1];
        historyIndex := historyIndex - 1;
        pixels := newPixels;
        firstSnapshotShared := false;
      }
    }

    /** `redo`: when the cursor is before the last entry, step forward and
        show a copy of that snapshot; otherwise nothing changes. */
    method Redo()
      requires Valid()
      modifies this`historyIndex, this`pixels, this`firstSnapshotShared
      ensures Valid()
      ensures Log() == Timeline.Redo(old(Log()))
      ensures Timeline.CanRedo(old(Log())) ==> pixels == Timeline.Current(Log()) && !firstSnapshotShared
      ensures !Timeline.CanRedo(old(Log())) ==>
                pixels == old(pixels) && firstSnapshotShared == old(firstSnapshotShared)
    {
      if historyIndex < |history| - 1 {
        var newPixels := history[historyIndex + 1];
        historyIndex := historyIndex + 1;
        pixels := newPixels;
        firstSnapshotShared := false;
      }
    }
  }

  /** The first stroke after the grid is reset cannot be undone: the press,
      as the page dispatches it, was written into the rows of the first
      snapshot as well, so undoing its commit shows the stroke again, and the
      top-left cell it also painted. */
  method FirstStrokeSurvivesUndo() returns (shown: string, origin: string, index: int)
    ensures index == 0 && shown == "#000000" && origin == "#000000"
  {
    var e := new Editor();
    e.PressCell(1, 1);
    e.MouseUp();
    e.Undo();
    index := e.historyIndex;
    shown := e.pixels[1][1];
    origin := e.pixels[0][0];
  }

  /** After a Clear, one undo brings back the drawing the Clear replaced. */
  method ClearThenUndo() returns (restored: bool)
    ensures restored
  {
    var e := new Editor();
    e.PressCell(2, 3);
    e.MouseUp();
    e.ClearCanvas();
    e.Undo();
    restored := e.pixels[2][3] == "#000000";
  }
}
