# Pixel Painter editor core, modelled in Dafny

This project models the editor state machine of the Pixel Painter web app
(`app.js`). The app keeps one `App` object with six parts:

- the board side `gridSize`;
- the PNG scale `scaleExport`, 20 pixels per cell, never reassigned and so a
  constant of the class;
- the tool `mode`, brush or eraser;
- `cells`, the cell elements;
- the snapshot stacks `undo` and `redo`.

Its handlers are: generating the grid, painting a cell, taking and loading
snapshots, undo, redo, the two mode buttons, clear, the PNG export and JSON
export and import. The DOM is abstracted away. Each cell element becomes its
`style.backgroundColor` value, held as a `Colour`. A `Colour` is `Unset` (the
empty style string), `Transparent` (the literal `"transparent"`) or
`Opaque(css)` (any other colour string, compared by plain equality). Snapshots
and JSON pixel arrays hold an `Entry`, which is `Null` or `Text(s)`. A capture
records `backgroundColor || null`, so an unset cell becomes `Null`. Assigning
`null` or `""` back to a style clears it.

Files:

- `colours.dfy` (module `Colours`) holds colours, entries, snapshot capture
  (`Capture`) and snapshot application (`Overlay`), with their round-trip
  lemmas.
- `editor_spec.dfy` (module `EditorSpec`) holds the editor state as a value
  (`State`), a function for each handler that changes more than the mode
  (generate, save, paint, undo, redo, clear, import) giving the state it
  leaves behind, the JSON export record, and
  the lemmas about them: paint no-op and effect, undo/redo round trips, undo
  after paint or clear, and the JSON round trip. It also holds the
  `HistoryConsistent` invariant, which says every snapshot has one canonical
  entry per current cell.
- `editor.dfy` (module `Editor`) holds the class `App`, with the fields of
  the JavaScript object. Its methods change those fields with the loops the
  source uses. The handlers that have an `EditorSpec` function (generate,
  save, paint, undo, redo, clear, import) are proved to produce exactly the
  state it describes (`Model() == Spec.F(old(Model()))`). `LoadSnapshot` is
  specified by `Colours.Overlay` and leaves the other fields alone; the two
  mode buttons change only `mode`. The constructor and the handlers that
  require the class invariant `Valid()` (one cell per square of the board,
  every colour valid) are proved to keep it; `GenerateGrid` establishes it
  from any state.
- `png_export.dfy` (module `PngExport`) holds the index-to-square arithmetic
  of the PNG export. It uses JavaScript `%` and `Math.floor`, written out so
  that they also hold for a negative `gridSize`. Its lemmas show that the
  squares of different cells never overlap, for either sign of `gridSize`,
  and, for a positive `gridSize`, that they lie inside the canvas and tile
  it.

Integers are unbounded. `gridSize` is an `int` because import accepts any
non-zero integer, including a negative one; `gridSize * gridSize` cells are
generated either way. Non-integer sizes are not represented (see "## Left out").

## Behaviour of app.js that the model states explicitly

- Neither `generateGrid` nor import clears `undo` or `redo` (app.js:31-48,
  193-194).
- `loadSnapshot` has no precondition. When a snapshot is longer than the grid,
  the JavaScript `forEach` writes every cell and then throws a `TypeError` at
  app.js:83. `App.LoadSnapshot`, `App.Undo` and `App.Redo` return
  `completed == false` in exactly that case. The stack moves made before the
  load stay in place, as they do in the browser.
- A snapshot shorter than the grid restores only a prefix. The remaining cells
  keep their colour.
- `HistoryConsistent` is kept by paint, clear, undo and redo. Import breaks it:
  `ImportBreaksHistory` gives a concrete state where undo after an import stops
  at app.js:83.
- Exporting a grid of size 0 and importing the file would be refused, because
  `0` is falsy. No reachable state has size 0: the initial size is 32, and
  import refuses 0.
- The model follows app.js as written. There is no flood fill, no coalescing
  of a drag into one undo step (every effective cell paint pushes its own
  snapshot), no 200-entry undo cap, no colour normalisation, no separate
  width and height, and no size-mismatch error on restore.

## Model

| member | source | states |
|---|---|---|
| `Colours.Style` | app.js:62 | reading `style.backgroundColor` of a valid colour gives `""` exactly when it is unset and `"transparent"` exactly when it is transparent |
| `Colours.FromStyle` | app.js:67 | assigning a style string gives a valid colour that reads back as the same string |
| `Colours.StyleRoundTrip` | app.js:62-67 | writing back the style of a valid colour leaves the colour unchanged |
| `Colours.Shown` | app.js:62 | the style, or `"transparent"` when unset, is never unset and equals the cell's colour when that is set |
| `Colours.ToEntry` | app.js:76 | a capture entry is `null` exactly for an unset cell, is canonical, and assigning it back restores the colour |
| `Colours.FromEntry` | app.js:83 | assigning an entry gives a valid colour, unset exactly for `null` or `""` |
| `Colours.EntryRoundTrip` | app.js:76-83 | capturing the colour an entry produces gives back that entry iff the entry is not `""` |
| `Colours.Capture` | app.js:76 | a snapshot has one entry per cell, each canonical and decoding to that cell's colour |
| `Colours.Overlay` | app.js:81-85 | applying entries keeps the grid length and keeps every colour valid |
| `Colours.RestoreCapture` | app.js:76-85 | loading a capture of `cells` into any grid of the same length gives back `cells` |
| `Colours.CaptureRestore` | app.js:76-85 | capturing a grid after loading a full-length canonical snapshot gives back that snapshot |
| `EditorSpec.CellCount` | app.js:35 | the loop bound `gridSize * gridSize` is a natural number |
| `EditorSpec.GenerateGrid` | app.js:31-48 | the grid gets exactly gridSize² cells, all unset; size, mode and both stacks are unchanged |
| `EditorSpec.Initial` | app.js:5-12 | the start state is 32×32 unset cells in brush mode with empty stacks, and it satisfies both invariants |
| `EditorSpec.SaveUndoState` | app.js:75-79 | pushes exactly one snapshot, the capture of the current cells, from which they can be restored; empties redo; leaves cells, size and mode as they were; keeps both invariants |
| `EditorSpec.TargetStyle` | app.js:63 | the style written is the picker value with the brush; it is `"transparent"` exactly with the eraser or a `"transparent"` picker value |
| `EditorSpec.Target` | app.js:63 | the colour painted is the picker colour with the brush and `"transparent"` with the eraser |
| `EditorSpec.Paint` | app.js:60-69 | painting keeps the grid invariant and the history invariant |
| `EditorSpec.PaintNoOp` | app.js:62-65 | a paint leaves the whole state unchanged iff the cell, read with unset as `"transparent"`, already shows the target colour |
| `EditorSpec.PaintEffect` | app.js:63-68 | otherwise it pushes one snapshot equal to the pre-paint cells, empties redo, sets the target cell to the target colour and changes no other cell |
| `EditorSpec.PaintThenUndo` | app.js:60-94 | undo after an effective paint restores the cells and the undo stack from before the paint |
| `EditorSpec.LoadCompletes` | app.js:81-85 | loadSnapshot runs to its end when the snapshot is no longer than the grid, which every fitting snapshot is; then every entry has landed in its cell; otherwise there is an entry at index `cells.length`, where app.js:83 throws |
| `EditorSpec.Undo` | app.js:87-94 | with an empty undo stack nothing changes; otherwise the top of undo is popped and written over the cells (a short snapshot only over a prefix, a long one cut at the last cell), and redo gains a capture of the current cells; a fitting snapshot becomes exactly the new cells; under the history invariant the load completes and the invariant is kept |
| `EditorSpec.Redo` | app.js:96-103 | the mirror image of `Undo`: the top of redo is popped and written over the cells, and undo gains a capture of the current cells |
| `EditorSpec.UndoThenRedo` | app.js:87-103 | redo right after undo restores the cells, the redo stack and the undo stack's length; when the undone snapshot fits the grid, it restores the whole state |
| `EditorSpec.RedoThenUndo` | app.js:87-103 | undo right after redo restores the cells, the undo stack and the redo stack's length; when the snapshot fits, it restores the whole state |
| `EditorSpec.Clear` | app.js:119-122 | clear pushes one snapshot of the current cells, empties redo and sets every cell to `"transparent"`, keeping the length and both invariants |
| `EditorSpec.ClearThenUndo` | app.js:87-122 | undo after clear restores the pre-clear cells and undo stack |
| `EditorSpec.ExportJson` | app.js:157-161 | the export carries `gridSize` and one pixel per cell, with `null` exactly for unset cells |
| `EditorSpec.Parsed` | app.js:163-188 | `JSON.parse` of the `JSON.stringify` text of an export is taken to give back the same integer `gridSize` and the same array of strings and `null`s; such a document passes the check of app.js:188 exactly when its `gridSize` is not 0 |
| `EditorSpec.Accepts` | app.js:188 | a document whose `gridSize` is absent, `null` or 0, or whose `pixels` is absent, is refused; an accepted one always asks for a non-empty grid |
| `EditorSpec.Import` | app.js:188-198 | a falsy `gridSize` or a missing `pixels` changes nothing; otherwise the grid is gridSize² cells, cell i is pixel i where both exist, the rest are unset, and mode and stacks are kept |
| `EditorSpec.ExportImportRoundTrip` | app.js:157-198 | importing an exported file into any editor reproduces `gridSize` and `cells`; a 0-sized export is refused |
| `EditorSpec.ImportBreaksHistory` | app.js:188-198 | there is a consistent state where import leaves an undo snapshot longer than the grid, so undo cannot complete |
| `PngExport.JsRem` | app.js:140 | the JavaScript remainder of a non-negative index is a column in `[0, abs(size))` |
| `PngExport.JsFloorDiv` | app.js:141 | `Math.floor(a / b)` is the floor quotient, for either sign of `b` |
| `PngExport.CellPosition` | app.js:140-141 | an index below size² has a column and a row below `size` that rebuild it |
| `PngExport.Block` | app.js:140-144 | cell i is drawn as a square of side `scale`; for a positive size at column `i % size` and row `floor(i / size)`, which rebuild i |
| `PngExport.BlockInCanvas` | app.js:133-144 | every cell's square of side `scale` lies inside the `size * scale` canvas |
| `PngExport.BlocksDisjoint` | app.js:139-144 | distinct indices get squares that do not overlap, for every non-zero size, negative ones included |
| `PngExport.PixelInBlock` | app.js:133-144 | every canvas pixel lies in the square of the cell `row * size + column`, so the squares tile the canvas |
| `Editor.App.constructor` | app.js:5-50 | the new object is in the initial state |
| `Editor.App.GenerateGrid` | app.js:31-48 | the counting loop leaves exactly the state `EditorSpec.GenerateGrid` describes |
| `Editor.App.SaveUndoState` | app.js:75-79 | the new state is `EditorSpec.SaveUndoState` of the old one |
| `Editor.App.LoadSnapshot` | app.js:81-85 | the cells become `Overlay(old cells, snapshot)`, nothing else changes, and `completed` is false iff the snapshot is longer than the grid |
| `Editor.App.PaintCell` | app.js:60-69 | the new state is `EditorSpec.Paint` of the old one, and the grid invariant is kept |
| `Editor.App.Undo` | app.js:87-94 | the new state is `EditorSpec.Undo` of the old one; `completed` tells whether loadSnapshot ran to its end |
| `Editor.App.Redo` | app.js:96-103 | the new state is `EditorSpec.Redo` of the old one; `completed` tells whether loadSnapshot ran to its end |
| `Editor.App.SelectBrush` | app.js:109-111 | only the mode changes, to brush |
| `Editor.App.SelectEraser` | app.js:112-114 | only the mode changes, to eraser |
| `Editor.App.Clear` | app.js:119-122 | the snapshot and the forEach loop leave exactly `EditorSpec.Clear` of the old state |
| `Editor.App.SavePng` | app.js:128-151 | the canvas side is `gridSize * scaleExport`, and cell i is filled into `Block(i)` with its style, read as `"transparent"` when unset |
| `Editor.App.Import` | app.js:185-199 | the new state is `EditorSpec.Import` of the old one, and the grid invariant is kept |

## Left out

- DOM creation and lookup, event-listener registration and the module-level `mouseDown` flag (app.js:17-25, 36-45, 56-58): UI wiring. The paint handler takes the index of the target cell and the picker value as inputs.
- Canvas drawing, `imageSmoothingEnabled`, `toDataURL`, Blob and object-URL creation and the download links (app.js:132-137, 147-150, 163-170): browser APIs. Only the coordinates and fill styles handed to `fillRect` are modelled.
- The file picker, `FileReader`, `JSON.parse` and `alert` (app.js:177-191, 201): asynchronous I/O and a foreign parser. Import takes an already-parsed `Document`. `EditorSpec.Parsed`, and so `ExportImportRoundTrip`, take `JSON.parse(JSON.stringify(x))` to return `x` for an integer `gridSize` and a `pixels` array of strings and `null`s; the JSON text itself is not modelled. Only an integer `gridSize` (or none) and a `pixels` array of strings and `null`s (or none) are represented. Other truthy values pass the check at app.js:188 in the browser and are not modelled: a non-integer number (for 2.5 the loop at app.js:35 runs while `i < 6.25` and makes 7 cells), a boolean, a numeric or non-numeric string (`"abc" * "abc"` is NaN, so the grid gets no cells), an object or an array for `gridSize`; an object, a non-empty string, a number or `true` for `pixels` (the grid is regenerated, then `forEach` throws at app.js:196); and pixel values other than strings and `null`.
- The keyboard shortcuts (app.js:208-211): UI bindings onto `Undo` and `Redo`.
- The browser's CSS colour handling: normalising `#rrggbb` to `rgb(...)` on read-back, and ignoring invalid colour strings on assignment. Colours are opaque strings compared by equality, so the no-op test of app.js:65 is modelled on the strings as written.
- Flood fill, stroke coalescing, the 200-entry undo cap, colour parsing, SVG export and the optional `cellSize` field of the JSON format: none appears in app.js.
- `PngExport.BlockInCanvas` and `PngExport.PixelInBlock`: proved for a positive `gridSize` only. With a negative `gridSize` (reachable through import) the canvas side `size * scale` at app.js:133 is negative and the blocks fall at negative y, so there is no canvas for them to lie in.
- `Editor.App.SavePng`: its contracts say which square and style each cell is drawn with, not what the PNG image contains.
