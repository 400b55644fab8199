# Pixel-grid editor engine

This project models the drawing engine behind the two editor screens of the pixelcraft pixel-art web app, and proves properties of that model.

The two screens are `src/app/edit.tsx` and `src/Dapp.tsx`. Each holds:
- an N×N grid of CSS colour strings, where `"transparent"` marks an empty cell;
- a draw/erase tool and a colour;
- an undo history, which is a list of grid snapshots plus a cursor.

Both screens support painting cells with the mouse, importing an image through an off-screen canvas, exporting the grid as a scaled PNG, clearing, undo and redo. The first screen also lists the distinct colours in use, canonicalised by `rgbaToHex` of `src/lib/utils.ts` to `#rrggbb` or `#rrggbbaa`.

The model has these modules:

- `Colors` (`src/lib/utils.ts`). This file has no mutable state, so everything here is functions and lemmas:
  - `rgbaToHex` and its inner `toHex`;
  - JavaScript's `parseInt`, `toString(16)`, `parseFloat` and `Math.round`, restricted to the inputs they receive here;
  - the pattern `rgba?\((\d+),\s*(\d+),\s*(\d+)(?:,\s*([\d.]+))?\)`, written as a deterministic matcher with a leftmost search. Each group ends where the next literal begins, so the pattern never needs backtracking.
- `Grids`: the grid type, the blank grid, the tool's paint value and the single-cell write.
- `Timeline`: the history list and cursor as a value, with commit, undo and redo and the laws relating them. Both editor classes keep their `history`/`historyIndex` fields equal to these functions applied to the old state.
- `Palette`: `updateUsedColors`. The nested `forEach` is a method with loop invariants, proved equal to the function `UsedColors`. That function has no duplicates and holds exactly the canonical colours of the non-transparent cells.
- `Raster`: the import write-back loops of both screens over an abstract sampler `(x, y) -> (r, g, b, a)`. It also holds the first screen's aspect-fit and centring arithmetic over exact reals.
- `Export`: `downloadImage`'s fill loop. It is proved to paint every point of the `(N·20)²` canvas with exactly the colour of the cell the point lies in.
- `EditScreen.Editor` and `DappScreen.Editor`: one class per screen. The React state variables are fields, and every handler is a method that updates them.

Each handler is modelled as one atomic step on explicit state. A `JSON.parse(JSON.stringify(...))` copy is a value copy.

The code shares rows in one place, and the model keeps that sharing explicit. The grid created by `initializeGrid` (first screen) or the grid-size effect (second screen) is both the live `pixels` and `history[0]`. The handlers copy only the outer array (`[...pixels]`) and assign into the shared rows. Until `pixels` is next replaced by a new grid, every cell write therefore also changes the first snapshot. The classes model this with the field `firstSnapshotShared`: while it is set, a cell write updates `history[0]` together with `pixels`.

Two behaviours of the code shape the model:
- An out-of-range cell or grid size is not reported as an error. The code never checks for either, and its callers cannot produce one. The model states these as preconditions instead.
- The first screen never commits a stroke: no element there calls `handleMouseUp`.

## Model

| member | source | states |
|---|---|---|
| Colors.ParseInt | src/lib/utils.ts:17 | `parseInt` is NaN exactly when the text is empty or does not start with a digit |
| Colors.ParseIntOfDigits | src/lib/utils.ts:17 | `parseInt` of a whole digit run, such as a matched channel group, is that run's decimal value |
| Colors.ParseIntOfDecimal | src/lib/utils.ts:17 | `parseInt` of the decimal text of `n` gives back `n` |
| Colors.Decimal | src/Dapp.tsx:119 | the decimal text of a number is non-empty and all digits, and is one digit long exactly when the number is below 10 |
| Colors.DecimalRoundTrip | src/Dapp.tsx:119 | reading the decimal text of `n` back gives `n` |
| Colors.HexString | src/lib/utils.ts:17 | `toString(16)` is non-empty lowercase hex; it is one digit exactly below 16 and two digits exactly from 16 to 255 |
| Colors.HexRoundTrip | src/lib/utils.ts:17 | reading the hex text of `n` back gives `n` |
| Colors.ToHex | src/lib/utils.ts:16-19 | `toHex` is "NaN" exactly when `parseInt` is NaN. Otherwise it is lowercase hex that reads back as the parsed number, at least two digits, and exactly two when the number is below 256 |
| Colors.ToHexOfByte | src/lib/utils.ts:16-19 | `toHex` of a channel 0..255 is exactly two lowercase hex digits, zero-padded, that read back as the channel |
| Colors.Lead | src/lib/utils.ts:11 | the longest prefix whose characters satisfy a class: every character in it does, and the next one does not |
| Colors.ParseFloat | src/lib/utils.ts:23 | `parseFloat` of digits and dots is NaN exactly when the text is empty or starts with a dot not followed by a digit; otherwise it is non-negative, and exactly 1 for the default "1" |
| Colors.ParseFloatOfDigits | src/lib/utils.ts:23 | a text of digits alone reads as its decimal value |
| Colors.ParseFloatOfDecimal | src/lib/utils.ts:23 | `parseFloat` of the decimal text of `n` gives back `n` |
| Colors.ParseFloatOfFraction | src/lib/utils.ts:23 | integer digits, a dot and fraction digits read as `d + f / 10^|f|`; anything from a second dot on is ignored |
| Colors.RoundHalfUp | src/lib/utils.ts:24 | `Math.round` lies within half a unit of its argument, halves rounding up |
| Colors.MatchAt | src/lib/utils.ts:11 | a match starting at a position begins with `r`; its three channel groups are non-empty digit runs, and its alpha group, when present, is a non-empty `[\d.]` run |
| Colors.Search | src/lib/utils.ts:11 | a found match has non-empty digit runs as its channel groups and, when present, a non-empty `[\d.]` run as its alpha group |
| Colors.SearchFindsAny | src/lib/utils.ts:11-12 | a match starting anywhere in the text is found |
| Colors.SearchIsLeftmost | src/lib/utils.ts:11 | the match found is the one at the leftmost position that has a match |
| Colors.NoMatchWithoutR | src/lib/utils.ts:11-12 | text without the letter `r` holds no match |
| Colors.EmptyIsTransparent | src/lib/utils.ts:9 | `rgbaToHex("")` and `rgbaToHex("transparent")` are both "transparent" |
| Colors.NoPatternUnchanged | src/lib/utils.ts:11-12 | a non-empty input with no `r` in it, such as the picker's `#000000`, is returned unchanged |
| Colors.AlphaText | src/lib/utils.ts:14 | the alpha text is the matched group, or "1" when it is absent, which reads as fully opaque |
| Colors.AlphaSuffix | src/lib/utils.ts:23-25 | the suffix is empty exactly when the alpha reads as 1. Otherwise its hex digits read back as `Math.round(alpha * 255)`, two of them for an alpha below 1, and "NaN" for an alpha that is NaN |
| Colors.HexOfMatch | src/lib/utils.ts:16-25 | the output built from a match starts with `#`, has at least seven characters and never contains the letter `r` |
| Colors.RgbaToHex | src/lib/utils.ts:8-26 | the result is "transparent" exactly for "" and "transparent"; any other text without a match is returned unchanged, and a match gives a `#` form of at least seven characters |
| Colors.RgbaToHexIdempotent | src/lib/utils.ts:8-26 | canonicalising twice is the same as canonicalising once, for every input |
| Colors.HexOfMatchLength | src/lib/utils.ts:14-25 | byte channels give `#` plus three two-digit lowercase fields that read back as the channels. With an absent alpha or one reading as 1 there is no suffix (7 characters). An alpha in [0, 1) adds a two-digit suffix (9 characters) |
| Colors.MatchOfRgbaCall | src/lib/utils.ts:11 | the pattern reads back exactly the four fields of an `rgba(r, g, b, a)` cell text |
| Colors.RgbaToHexOfCall | src/lib/utils.ts:11-25 | an `rgba(r, g, b, a)` text with digit channels canonicalises to `#`, `toHex` of each channel and the alpha suffix of `a` |
| Colors.ToHexExamples | src/lib/utils.ts:16-19 | `toHex` of "255", "0" and "128" is "ff", "00" and "80" |
| Colors.HalfAlphaSuffix | src/lib/utils.ts:23-24 | an alpha of 0.5 gives the suffix "80": 127.5 rounds up to 128 |
| Grids.Blank | src/app/edit.tsx:35-38 | the fresh grid is n×n with every cell "transparent" |
| Grids.Paint | src/app/edit.tsx:95 | the tool writes the colour when drawing; the cell ends up empty exactly when erasing or drawing with "transparent" |
| Grids.WithCell | src/app/edit.tsx:92-106 | a cell write sets exactly that cell and leaves the shape and every other cell unchanged |
| Timeline.Start | src/app/edit.tsx:39-41 | a reset history has one entry, the new grid, with the cursor at 0 and both buttons disabled |
| Timeline.Commit | src/app/edit.tsx:81-90 | a commit keeps the entries up to the cursor, ends with the new grid, moves the cursor to it, disables redo and enables undo. The new length is the old cursor plus 2, at most one more than before |
| Timeline.Undo | src/app/edit.tsx:226-233 | undo moves the cursor back by one when it is above 0 and is a no-op otherwise. The list never changes and the cursor stays in range |
| Timeline.Redo | src/app/edit.tsx:235-242 | redo moves the cursor forward by one when it is before the last entry and is a no-op otherwise. The list never changes and the cursor stays in range |
| Timeline.RedoAfterUndo | src/app/edit.tsx:226-242 | undo followed by redo restores the same list and cursor, and so the same displayed snapshot |
| Timeline.UndoAfterRedo | src/Dapp.tsx:162-174 | redo followed by undo restores the same list and cursor |
| Timeline.CommitPrunesRedo | src/Dapp.tsx:50-55 | after a commit, redo changes nothing |
| Timeline.UndoAfterCommit | src/Dapp.tsx:154-160 | one undo after a commit returns to the entry the cursor was on before it |
| Timeline.BranchIsPruned | src/app/edit.tsx:83-84 | committing A, B, C, then undo, then D, leaves A, B, D and drops C |
| Timeline.UndoTimes | src/app/edit.tsx:226-233 | k undos move the cursor back by k, stopping at 0 |
| Timeline.RedoTimes | src/app/edit.tsx:235-242 | k redos move the cursor forward by k, stopping at the last entry |
| Palette.CollectUsedColors | src/app/edit.tsx:69-79 | the nested loop computes `UsedColors` of the grid |
| Palette.UsedColors | src/app/edit.tsx:69-79 | the colours in the order the `Set` first meets them, none listed twice |
| Palette.UsedColorsMembers | src/app/edit.tsx:71-76 | a colour is listed exactly when some non-transparent cell canonicalises to it |
| Palette.BlankUsesNoColor | src/app/edit.tsx:73 | a blank grid lists no colour |
| Raster.CellText | src/Dapp.tsx:119 | an imported cell's text is never empty or "transparent", and the colour pattern reads its three decimal channels and its alpha text back out of it |
| Raster.CenteredCell | src/app/edit.tsx:176-180 | the first screen leaves a cell "transparent" exactly when its sample has alpha 0, and otherwise writes the sample's `rgba(...)` text |
| Raster.RasterizeCentered | src/app/edit.tsx:170-183 | the first screen's import gives an n×n grid. A cell holds its `rgba(...)` text when the sampled alpha is above 0 and "transparent" otherwise |
| Raster.StretchInto | src/Dapp.tsx:115-121 | the second screen's import overwrites every cell of the n×n grid with its `rgba(...)` text, alpha 0 included |
| Raster.ImportedCellHex | src/Dapp.tsx:119 | an imported cell canonicalises to `#`, the three channel fields and the alpha suffix; with alpha text "1" the result is 7 characters |
| Raster.FitScale | src/app/edit.tsx:155-158 | the scale is the smaller of `N/W` and `N/H` |
| Raster.CenterShift | src/app/edit.tsx:159-160 | the margins on both sides of the scaled extent are equal, and not negative when the extent fits |
| Raster.FitIsCentered | src/app/edit.tsx:155-160 | the scaled image fits within N×N and fills it along one axis. Both shifts are ≥ 0, and `2·shift + extent·scale = N` on each axis |
| Export.Block | src/app/edit.tsx:212 | a block is the 20×20 square aligned on its cell |
| Export.Fills | src/app/edit.tsx:209-213 | every cell's block is filled in that cell's colour |
| Export.RowFills | src/app/edit.tsx:210-213 | a row's fills are, in order, each cell's colour on its block |
| Export.PaintCells | src/app/edit.tsx:209-214 | the nested `forEach` issues exactly `Fills` of the grid, row by row |
| Export.BlockCoversIff | src/app/edit.tsx:212 | a block covers a point exactly when the point's coordinates divided by the scale are the block's cell |
| Export.BlocksDisjoint | src/Dapp.tsx:144 | the blocks of two distinct cells share no point |
| Export.Download | src/app/edit.tsx:198-214 | the canvas is `(N·20)²`, the fills are `Fills` of the grid, and every canvas point gets the colour of its cell |
| Export.ExportTilesCanvas | src/Dapp.tsx:134-146 | every point of the `(N·20)²` canvas lies in a cell of the grid and is touched by exactly one fill, the one for that cell |
| Export.FillsInsideCanvas | src/Dapp.tsx:135-146 | no fill touches a point outside the canvas |
| EditScreen.Editor.constructor | src/app/edit.tsx:23-30 | after mount the grid is a blank 16×16, the history is that grid alone at index 0, the tool is draw with black, and no colours are listed |
| EditScreen.Editor.InitializeGrid | src/app/edit.tsx:35-42 | the grid becomes blank n×n, the history is that one grid at index 0, and the grid shares its rows with that entry |
| EditScreen.Editor.SetGridSize | src/app/edit.tsx:65-67 | a new size re-initialises the grid and history; the same size changes nothing |
| EditScreen.Editor.SetTool | src/app/edit.tsx:285 | the tool becomes the chosen one |
| EditScreen.Editor.SetColor | src/app/edit.tsx:276 | the colour becomes the picker's hex value |
| EditScreen.Editor.UpdateUsedColors | src/app/edit.tsx:69-79 | the listed colours become `UsedColors` of the grid |
| EditScreen.Editor.AddToHistory | src/app/edit.tsx:81-90 | the history becomes `Commit` of the old one, and the listed colours are refreshed |
| EditScreen.Editor.WriteCell | src/app/edit.tsx:94-97 | the grid becomes `WithCell` with the tool's value. While rows are shared, the first snapshot changes the same way |
| EditScreen.Editor.MouseDown | src/app/edit.tsx:92-98 | drawing starts and exactly the pressed cell is painted |
| EditScreen.Editor.MouseOver | src/app/edit.tsx:100-106 | when not drawing, nothing changes; when drawing, exactly that cell is painted |
| EditScreen.Editor.MouseUp | src/app/edit.tsx:108-113 | one entry is committed exactly when a stroke was in progress, and drawing stops |
| EditScreen.Editor.ImportImage | src/app/edit.tsx:170-186 | the grid becomes the centred raster, committed as exactly one history entry, and the colours are refreshed |
| EditScreen.Editor.DownloadImage | src/app/edit.tsx:198-214 | the canvas is `(N·20)²`, the fills are `Fills` of the grid, and every canvas point gets its cell's colour |
| EditScreen.Editor.ClearCanvas | src/app/edit.tsx:222-224 | the grid is reset to blank and the history to that one grid; the listed colours stay as they were |
| EditScreen.Editor.Undo | src/app/edit.tsx:226-233 | the history follows `Undo`. When undo was enabled, the grid shows the new current entry and the colours are refreshed; otherwise nothing changes |
| EditScreen.Editor.Redo | src/app/edit.tsx:235-242 | the history follows `Redo`. When redo was enabled, the grid shows the new current entry and the colours are refreshed; otherwise nothing changes |
| EditScreen.StrokeIsNotCommitted | src/app/edit.tsx:366-371 | a press and a drag leave the history at one entry with undo disabled, because nothing calls `handleMouseUp` |
| EditScreen.StrokeBeforeImportSurvivesUndo | src/app/edit.tsx:39-40 | a cell painted before the first import is still shown after undoing that import |
| DappScreen.PressAsDispatched | src/Dapp.tsx:291 | a press on a cell paints that cell and cell (0, 0), and leaves every other cell unchanged |
| DappScreen.PressRepaintsOrigin | src/Dapp.tsx:291 | pressing another cell differs from painting that cell alone whenever (0, 0) held a different value |
| DappScreen.Editor.constructor | src/Dapp.tsx:9-15 | after mount the grid is a blank 16×16, and the history is that grid alone at index 0 |
| DappScreen.Editor.ResetGrid | src/Dapp.tsx:41-48 | the grid becomes blank n×n, the history is that one grid at index 0, and the grid shares its rows with that entry |
| DappScreen.Editor.SetGridSize | src/Dapp.tsx:215-218 | a new size resets the grid and history; the same size changes nothing |
| DappScreen.Editor.SetTool | src/Dapp.tsx:241 | the tool becomes the chosen one |
| DappScreen.Editor.SetColor | src/Dapp.tsx:230 | the colour becomes the input's value |
| DappScreen.Editor.AddToHistory | src/Dapp.tsx:50-55 | the history becomes `Commit` of the old one |
| DappScreen.Editor.WriteCell | src/Dapp.tsx:59-61 | the grid becomes `WithCell` with the tool's value. While rows are shared, the first snapshot changes the same way |
| DappScreen.Editor.MouseDown | src/Dapp.tsx:57-62 | drawing starts and exactly the pressed cell is painted |
| DappScreen.Editor.PressCell | src/Dapp.tsx:291 | a press on a cell leaves the grid as `PressAsDispatched` describes |
| DappScreen.Editor.MouseOver | src/Dapp.tsx:64-69 | when not drawing, nothing changes; when drawing, exactly that cell is painted |
| DappScreen.Editor.MouseUp | src/Dapp.tsx:71-76 | one entry is committed exactly when a stroke was in progress; otherwise the history is unchanged. Drawing stops |
| DappScreen.Editor.ImportImage | src/Dapp.tsx:113-123 | every cell is overwritten with its sample in place, and the result is committed as exactly one history entry |
| DappScreen.Editor.DownloadImage | src/Dapp.tsx:130-146 | the canvas is `(N·20)²`, the fills are `Fills` of the grid, and every canvas point gets its cell's colour |
| DappScreen.Editor.ClearCanvas | src/Dapp.tsx:154-160 | a fresh blank grid is shown and committed after the cursor, so the history keeps the drawing before it |
| DappScreen.Editor.Undo | src/Dapp.tsx:162-167 | the history follows `Undo`. When undo was enabled, the grid shows the new current entry; otherwise nothing changes |
| DappScreen.Editor.Redo | src/Dapp.tsx:169-174 | the history follows `Redo`. When redo was enabled, the grid shows the new current entry; otherwise nothing changes |
| DappScreen.FirstStrokeSurvivesUndo | src/Dapp.tsx:42-47 | pressing a cell as the page dispatches it, releasing and undoing returns to index 0 but still shows the stroke, and the top-left cell it also painted |
| DappScreen.ClearThenUndo | src/Dapp.tsx:154-160 | after a press as the page dispatches it, a Clear followed by one undo brings back the drawing the Clear replaced |

## Left out

- Browser work is not modelled; it becomes parameters:
  - `drawImage` resampling: the sampler `(x, y) -> Rgba`;
  - `getImageData`;
  - `fillStyle`/`fillRect` pixel semantics: the export is a list of fills, and a point's colour is the list of fills touching it;
  - `toDataURL` and the download link.
- A `fillStyle` assignment with text that is not a valid CSS colour is ignored by the browser, so the following `fillRect` paints the block in the previous style, initially `#000000`. The model records the cell's text as the block's style and does not capture that.
- FileReader and Image loading are asynchronous; each import is modelled as one step.
- React specifics are not modelled: state batching, stale closures, effect scheduling and `useCallback` dependencies. Each handler is one atomic step on explicit state.
- The state before the first render's effects (an empty grid with cursor -1) is not modelled. The constructors give the state after mount.
- The window-resize clamp (`src/app/edit.tsx:44-63`, `src/Dapp.tsx:20-39`): UI policy that depends on the window width.
- Touch-move mapping from screen coordinates to a cell (`src/app/edit.tsx:119-134`, `src/Dapp.tsx:82-97`): floating-point geometry. It reaches `MouseOver` with a cell already in range.
- The second screen's grid container also binds `onTouchStart={handleTouchStart}` (`src/Dapp.tsx:294`). That call passes the event object as the row and fails. It is not modelled.
- The import's `if (!ctx) return` and download's `if (!canvasRef.current) return` are browser failures. They are not modelled.
- Resetting the file input's value after import (`src/app/edit.tsx:187-189`) is not modelled.
- Colors.ParseInt models `parseInt` only on text without leading whitespace, sign or `0x` prefix. These never occur in the matched digit groups.
- Colors.ParseFloat reads the alpha text as an exact rational. IEEE rounding is not modelled, and neither is the exact decimal text the browser prints for `a / 255`; that text is the parameter `alphaText`.
- Colors.ToHex reads digit runs as unbounded natural numbers. JavaScript's `parseInt` returns a double, so a run above 2^53 loses precision before `toString(16)`; no cell text the app writes has a channel above 255.
- Colors.Decimal always prints plain digits. `Math.round(...).toString()` in the alpha suffix prints exponent form from 1e21 up; the app's alpha texts read at most 1, so the rounded value is at most 255.
- Raster.FitIsCentered works over exact reals, not IEEE doubles, and requires a non-empty image. JavaScript gives `Infinity` for a zero width or height.
- The code shares row arrays among other objects too; only the sharing between the live grid and `history[0]` is modelled, because it is the only sharing whose effects survive a handler call. Every other snapshot is a deep JSON copy.

## Findings

| source | as written | input that shows it | evidently intended | confidence | as-written member | corrected member |
|---|---|---|---|---|---|---|
| src/Dapp.tsx:291 | the grid container's `onMouseDown` calls `handleMouseDown(0, 0)`, and a press on any cell bubbles to it | draw tool, colour `#ff0000`, press cell (3, 4) on a blank grid: cells (3, 4) and (0, 0) both turn red | a press paints only the pressed cell | high, not executed | DappScreen.PressRepaintsOrigin | DappScreen.Editor.MouseDown |
