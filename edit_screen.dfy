/** The editor of src/app/edit.tsx as an object whose handlers update its
    state in place. The history is reset by Clear, only an image import
    commits (no element routes mouse-up to `MouseUp`), and the palette of
    used colours is recomputed on every commit, undo and redo. */
module EditScreen {
  import opened Grids
  import Timeline
  import Palette
  import Raster
  import Export

  /** `useState(16)`. */
  const InitialGridSize: nat := 16

  class Editor {
    var gridSize: nat
    var color: string
    var isDrawing: bool
    var pixels: Grid
    var tool: Tool
    var history: seq<Grid>
    var historyIndex: int
    var usedColors: seq<string>
    /** The live grid still shares its row arrays with `history[0]`, as it does
        from `initializeGrid` until `pixels` is next replaced; a cell written
        in place then changes that snapshot as well. */
    var firstSnapshotShared: bool

    ghost predicate Valid()
      reads this
    {
      && MinGridSize <= gridSize <= MaxGridSize
      && IsGrid(pixels, gridSize)
      && Timeline.Valid(Log())
      && (forall k :: 0 <= k < |history| ==> IsGrid(history[k], gridSize))
      && (firstSnapshotShared ==> history[0] == pixels)
    }

    /** The history list and its cursor as one value. */
    function Log(): Timeline.History
      reads this
    {
      Timeline.History(history, historyIndex)
    }

    /** The state once the component has mounted and its grid effect has run. */
    constructor ()
      ensures Valid()
      ensures gridSize == InitialGridSize && color == "#000000" && tool == Draw && !isDrawing
      ensures pixels == Blank(InitialGridSize) && Log() == Timeline.Start(pixels)
      ensures usedColors == [] && firstSnapshotShared
    {
      gridSize := InitialGridSize;
      color := "#000000";
      isDrawing := false;
      tool := Draw;
      usedColors := [];
      var newPixels := Blank(InitialGridSize);
      pixels := newPixels;
      history := [newPixels];
      historyIndex := 0;
      firstSnapshotShared := true;
    }

    /** `initializeGrid(size)`: a blank grid that is also the only snapshot. */
    method InitializeGrid(size: nat)
      requires MinGridSize <= gridSize <= MaxGridSize && size == gridSize
      modifies this`pixels, this`history, this`historyIndex, this`firstSnapshotShared
      ensures Valid()
      ensures pixels == Blank(size) && Log() == Timeline.Start(pixels) && firstSnapshotShared
    {
      var newPixels := Blank(size);
      pixels := newPixels;
      history := [newPixels];
      historyIndex := 0;
      firstSnapshotShared := true;
    }

    /** The slider sets `gridSize`; the effect on `[gridSize]` re-initialises
        the grid only when the value actually changed. */
    method SetGridSize(n: nat)
      requires Valid() && MinGridSize <= n <= MaxGridSize
      modifies this`gridSize, this`pixels, this`history, this`historyIndex, this`firstSnapshotShared
      ensures Valid() && gridSize == n
      ensures n != old(gridSize) ==>
                pixels == Blank(n) && Log() == Timeline.Start(pixels) && firstSnapshotShared
      ensures n == old(gridSize) ==>
                pixels == old(pixels) && Log() == old(Log()) && firstSnapshotShared == old(firstSnapshotShared)
    {
      if n != gridSize {
        gridSize := n;
        InitializeGrid(n);
      }
    }

    method SetTool(t: Tool)
      requires Valid()
      modifies this`tool
      ensures Valid() && tool == t
    {
      tool := t;
    }

    /** The colour picker's `color.hex`. */
    method SetColor(c: string)
      requires Valid()
      modifies this`color
      ensures Valid() && color == c
    {
      color := c;
    }

    /** `updateUsedColors(newPixels)`. */
    method UpdateUsedColors(g: Grid)
      requires Valid()
      modifies this`usedColors
      ensures Valid() && usedColors == Palette.UsedColors(g)
    {
      usedColors := Palette.CollectUsedColors(g);
    }

    /** `addToHistory(newPixels)`: slice up to the cursor, push a copy, move
        the cursor to the end, and refresh the used colours. */
    method AddToHistory(g: Grid)
      requires Valid() && IsGrid(g, gridSize)
      modifies this`history, this`historyIndex, this`usedColors
      ensures Valid()
      ensures Log() == Timeline.Commit(old(Log()), g)
      ensures usedColors == Palette.UsedColors(g)
    {
      var newHistory := history[..historyIndex + 1];
      newHistory := newHistory + [g];
      history := newHistory;
      historyIndex := |newHistory| - 1;
      UpdateUsedColors(g);
    }

    /** `newPixels[row][col] = newColor` on the shared row arrays. */
    method WriteCell(row: nat, col: nat)
      requires Valid() && row < gridSize && col < gridSize
      modifies this`pixels, this`history
      ensures Valid()
      ensures pixels == WithCell(old(pixels), row, col, Paint(tool, color))
      ensures history == if firstSnapshotShared then old(history)[0 := pixels] else old(history)
    {
      pixels := WithCell(pixels, row, col, Paint(tool, color));
      if firstSnapshotShared {
        history := history[0 := pixels];
      }
    }

    /** `handleMouseDown` (also `handleTouchStart`): start drawing and paint
        the cell. */
    method MouseDown(row: nat, col: nat)
      requires Valid() && row < gridSize && col < gridSize
      modifies this`isDrawing, this`pixels, this`history
      ensures Valid() && isDrawing
      ensures pixels == WithCell(old(pixels), row, col, Paint(tool, color))
      ensures history == if firstSnapshotShared then old(history)[0 := pixels] else old(history)
    {
      isDrawing := true;
      WriteCell(row, col);
    }

    /** `handleMouseOver`: paint the cell while drawing, otherwise nothing. */
    method MouseOver(row: nat, col: nat)
      requires Valid() && row < gridSize && col < gridSize
      modifies this`pixels, this`history
      ensures Valid()
      ensures !isDrawing ==> pixels == old(pixels) && history == old(history)
      ensures isDrawing ==> pixels == WithCell(old(pixels), row, col, Paint(tool, color))
      ensures isDrawing ==> history == if firstSnapshotShared then old(history)[0 := pixels] else old(history)
    {
      if !isDrawing {
        return;
      }
      WriteCell(row, col);
    }

    /** `handleMouseUp`: commit the stroke if one is in progress, then stop
        drawing. Nothing on this screen calls it. */
    method MouseUp()
      requires Valid()
      modifies this`isDrawing, this`history, this`historyIndex, this`usedColors
      ensures Valid() && !isDrawing
      ensures old(isDrawing) ==> Log() == Timeline.Commit(old(Log()), pixels) && usedColors == Palette.UsedColors(pixels)
      ensures !old(isDrawing) ==> Log() == old(Log()) && usedColors == old(usedColors)
    {
      if isDrawing {
        AddToHistory(pixels);
      }
      isDrawing := false;
    }

    /** The image-load callback of `handleImageUpload`: a fresh grid holding
        the samples with alpha above 0, committed as one history entry. */
    method ImportImage(sample: Raster.Sampler, alphaText: Raster.AlphaFormat)
      requires Valid()
      modifies this`pixels, this`history, this`historyIndex, this`usedColors, this`firstSnapshotShared
      ensures Valid() && !firstSnapshotShared
      ensures IsGrid(pixels, gridSize)
      ensures forall y, x :: 0 <= y < gridSize && 0 <= x < gridSize ==>
                pixels[y][x] == Raster.CenteredCell(sample(x, y), alphaText)
      ensures Log() == Timeline.Commit(old(Log()), pixels)
      ensures usedColors == Palette.UsedColors(pixels)
    {
      var newPixels := Raster.RasterizeCentered(gridSize, sample, alphaText);
      pixels := newPixels;
      firstSnapshotShared := false;
      AddToHistory(newPixels);
    }

    /** `downloadImage` on the current grid. */
    method DownloadImage() returns (width: nat, height: nat, ops: seq<Export.Fill>)
      requires Valid()
      ensures width == gridSize * Export.Scale && height == gridSize * Export.Scale
      ensures ops == Export.Fills(pixels)
      ensures forall px: nat, py: nat :: px < width && py < height ==>
                Export.StylesAt(ops, px, py) == [pixels[py / Export.Scale][px / Export.Scale]]
    {
      width, height, ops := Export.Download(pixels, gridSize);
    }

    /** `clearCanvas`: re-initialise, discarding the history. The used
        colours are left as they were. */
    method ClearCanvas()
      requires Valid()
      modifies this`pixels, this`history, this`historyIndex, this`firstSnapshotShared
      ensures Valid()
      ensures pixels == Blank(gridSize) && Log() == Timeline.Start(pixels) && firstSnapshotShared
    {
      InitializeGrid(gridSize);
    }

    /** `undo`: when the cursor is past the first entry, step back and show a
        copy of that snapshot; otherwise nothing changes. */
    method Undo()
      requires Valid()
      modifies this`historyIndex, this`pixels, this`usedColors, this`firstSnapshotShared
      ensures Valid()
      ensures Log() == Timeline.Undo(old(Log()))
      ensures Timeline.CanUndo(old(Log())) ==>
                pixels == Timeline.Current(Log()) && usedColors == Palette.UsedColors(pixels) && !firstSnapshotShared
      ensures !Timeline.CanUndo(old(Log())) ==>
                pixels == old(pixels) && usedColors == old(usedColors) && firstSnapshotShared == old(firstSnapshotShared)
    {
      if historyIndex > 0 {
        var newPixels := history[historyIndex - 1];
        historyIndex := historyIndex - 1;
        pixels := newPixels;
        firstSnapshotShared := false;
        UpdateUsedColors(newPixels);
      }
    }

    /** `redo`: when the cursor is before the last entry, step forward and
        show a copy of that snapshot; otherwise nothing changes. */
    method Redo()
      requires Valid()
      modifies this`historyIndex, this`pixels, this`usedColors, this`firstSnapshotShared
      ensures Valid()
      ensures Log() == Timeline.Redo(old(Log()))
      ensures Timeline.CanRedo(old(Log())) ==>
                pixels == Timeline.Current(Log()) && usedColors == Palette.UsedColors(pixels) && !firstSnapshotShared
      ensures !Timeline.CanRedo(old(Log())) ==>
                pixels == old(pixels) && usedColors == old(usedColors) && firstSnapshotShared == old(firstSnapshotShared)
    {
      if historyIndex < |history| - 1 {
        var newPixels := history[historyIndex + 1];
        historyIndex := historyIndex + 1;
        pixels := newPixels;
        firstSnapshotShared := false;
        UpdateUsedColors(newPixels);
      }
    }
  }

  /** A stroke on this screen never reaches the history: after a press and a
      drag the history still holds one entry and undo stays disabled. */
  method StrokeIsNotCommitted() returns (entries: nat, canUndo: bool, drawing: bool)
    ensures entries == 1 && !canUndo && drawing
  {
    var e := new Editor();
    e.MouseDown(1, 1);
    e.MouseOver(1, 2);
    entries := |e.history|;
    canUndo := Timeline.CanUndo(e.Log());
    drawing := e.isDrawing;
  }

  /** A stroke drawn before the first import is written into the first
      snapshot as well, so undoing the import still shows the stroke. */
  method StrokeBeforeImportSurvivesUndo(sample: Raster.Sampler, alphaText: Raster.AlphaFormat)
    returns (shown: string, index: int)
    ensures index == 0 && shown == "#000000"
  {
    var e := new Editor();
    e.MouseDown(1, 1);
    e.ImportImage(sample, alphaText);
    e.Undo();
    index := e.historyIndex;
    shown := e.pixels[1][1];
  }
}
