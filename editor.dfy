/** The `App` object of app.js and the handlers that update it in place; the
    DOM cells are the sequence `cells`, one colour per cell element. The
    handlers that have an EditorSpec function (generate, save, paint, undo,
    redo, clear, import) are proved to leave exactly the state it describes.
    LoadSnapshot is specified by Colours.Overlay, the mode buttons change only
    the mode, and SavePng changes nothing and returns the squares and styles
    it would draw. */
module Editor {
  import opened Colours
  import Spec = EditorSpec
  import Png = PngExport

  class App {
    var gridSize: int
    const scaleExport: int := 20
    var mode: Spec.Mode
    var cells: seq<Colour>
    var undo: seq<Spec.Snapshot>
    var redo: seq<Spec.Snapshot>

    function Model(): Spec.State
      reads this
    {
      Spec.State(gridSize, mode, cells, undo, redo)
    }

    predicate Valid()
      reads this
    {
      Spec.Valid(Model())
    }

    /** app.js:5-12, then the call to generateGrid at app.js:50. */
    constructor ()
      ensures Valid() && Model() == Spec.Initial()
    {
      gridSize := Spec.INITIAL_GRID_SIZE;
      mode := Spec.Brush;
      cells := [];
      undo := [];
      redo := [];
      new;
      GenerateGrid();
    }

    /** app.js:31-48: a counting loop appends gridSize² fresh cells. */
    method GenerateGrid()
      modifies this
      ensures Model() == Spec.GenerateGrid(old(Model()))
      ensures Valid()
    {
      cells := [];
      var n := Spec.CellCount(gridSize);
      var i := 0;
      while i < n
        invariant 0 <= i <= n
        invariant |cells| == i
        invariant forall k :: 0 <= k < i ==> cells[k] == Unset
        invariant gridSize == old(gridSize) && mode == old(mode)
        invariant undo == old(undo) && redo == old(redo)
      {
        cells := cells + [Unset];
        i := i + 1;
      }
    }

    /** app.js:75-79. */
    method SaveUndoState()
      modifies this
      ensures Model() == Spec.SaveUndoState(old(Model()))
    {
      var snapshot := Capture(cells);
      undo := undo + [snapshot];
      redo := [];
    }

    /** app.js:81-85: entry i is written into cell i. A snapshot longer than
        the grid writes every cell and then throws at the first missing one;
        `completed` is false exactly then. */
    method LoadSnapshot(snapshot: Spec.Snapshot) returns (completed: bool)
      modifies this
      ensures completed == Spec.LoadCompletes(snapshot, old(cells))
      ensures cells == Overlay(old(cells), snapshot)
      ensures gridSize == old(gridSize) && mode == old(mode)
      ensures undo == old(undo) && redo == old(redo)
    {
      var i := 0;
      while i < |snapshot|
        invariant 0 <= i <= |snapshot| && i <= |cells|
        invariant |cells| == |old(cells)|
        invariant forall k :: 0 <= k < |cells| ==>
          cells[k] == if k < i then FromEntry(snapshot[k]) else old(cells)[k]
        invariant gridSize == old(gridSize) && mode == old(mode)
        invariant undo == old(undo) && redo == old(redo)
      {
        if i >= |cells| {
          return false;
        }
        cells := cells[i := FromEntry(snapshot[i])];
        i := i + 1;
      }
      completed := true;
    }

    /** app.js:60-69, for the cell element at `index` that received the event. */
    method PaintCell(index: int, picker: string)
      requires Valid() && 0 <= index < |cells|
      modifies this
      ensures Valid()
      ensures Model() == Spec.Paint(old(Model()), index, picker)
    {
      var oldColor := Style(Shown(cells[index]));
      var newColor := if mode == Spec.Brush then picker else "transparent";
      if oldColor != newColor {
        SaveUndoState();
        cells := cells[index := FromStyle(newColor)];
      }
    }

    /** app.js:87-94. `completed` is false when the restored snapshot was
        longer than the grid and loadSnapshot threw. */
    method Undo() returns (completed: bool)
      requires Valid()
      modifies this
      ensures Valid()
      ensures Model() == Spec.Undo(old(Model()))
      ensures completed == Spec.UndoCompletes(old(Model()))
    {
      if |undo| == 0 {
        return true;
      }
      var current := Capture(cells);
      redo := redo + [current];
      var prev := undo[|undo| - 1];
      undo := undo[..|undo| - 1];
      completed := LoadSnapshot(prev);
    }

    /** app.js:96-103. */
    method Redo() returns (completed: bool)
      requires Valid()
      modifies this
      ensures Valid()
      ensures Model() == Spec.Redo(old(Model()))
      ensures completed == Spec.RedoCompletes(old(Model()))
    {
      if |redo| == 0 {
        return true;
      }
      var current := Capture(cells);
      undo := undo + [current];
      var next := redo[|redo| - 1];
      redo := redo[..|redo| - 1];
      completed := LoadSnapshot(next);
    }

    /** app.js:109-111. */
    method SelectBrush()
      modifies this
      ensures Model() == old(Model()).(mode := Spec.Brush)
    {
      mode := Spec.Brush;
    }

    /** app.js:112-114. */
    method SelectEraser()
      modifies this
      ensures Model() == old(Model()).(mode := Spec.Eraser)
    {
      mode := Spec.Eraser;
    }

    /** app.js:119-122. */
    method Clear()
      requires Valid()
      modifies this
      ensures Valid()
      ensures Model() == Spec.Clear(old(Model()))
    {
      SaveUndoState();
      var i := 0;
      while i < |cells|
        invariant 0 <= i <= |cells| == |old(cells)|
        invariant forall k :: 0 <= k < i ==> cells[k] == Transparent
        invariant gridSize == old(gridSize) && mode == old(mode)
        invariant undo == old(undo) + [Capture(old(cells))] && redo == []
      {
        cells := cells[i := Transparent];
        i := i + 1;
      }
    }

    /** app.js:128-151 without the canvas: the square each cell is filled into
        and the fill style it is filled with, in the order of the forEach. */
    method SavePng() returns (side: int, fills: seq<Png.Fill>)
      requires Valid()
      ensures side == gridSize * scaleExport
      ensures |fills| == |cells|
      ensures forall i :: 0 <= i < |cells| ==>
        gridSize != 0 && fills[i] == Png.Fill(Png.Block(i, gridSize, scaleExport), Style(Shown(cells[i])))
    {
      var scale := scaleExport;
      var size := gridSize;
      side := size * scale;
      fills := [];
      var i := 0;
      while i < |cells|
        invariant 0 <= i <= |cells|
        invariant |fills| == i
        invariant forall k :: 0 <= k < i ==>
          size != 0 && fills[k] == Png.Fill(Png.Block(k, size, scale), Style(Shown(cells[k])))
      {
        var x := Png.JsRem(i, size) * scale;
        var y := Png.JsFloorDiv(i, size) * scale;
        var style := Style(Shown(cells[i]));
        fills := fills + [Png.Fill(Png.Rect(x, y, scale), style)];
        i := i + 1;
      }
    }

    /** app.js:185-199 once the file is read and parsed: an invalid document
        leaves everything as it was; otherwise the grid is resized and
        regenerated and the pixels that have a cell are written into it. */
    method Import(doc: Spec.Document)
      requires Valid()
      modifies this
      ensures Valid()
      ensures Model() == Spec.Import(old(Model()), doc)
    {
      if !Spec.Accepts(doc) {
        return;
      }
      gridSize := doc.gridSize.value;
      GenerateGrid();
      var pixels := doc.pixels.value;
      ghost var blank := cells;
      var i := 0;
      while i < |pixels|
        invariant 0 <= i <= |pixels|
        invariant |cells| == |blank|
        invariant forall k :: 0 <= k < |cells| ==>
          cells[k] == if k < i then FromEntry(pixels[k]) else blank[k]
        invariant gridSize == doc.gridSize.value && mode == old(mode)
        invariant undo == old(undo) && redo == old(redo)
      {
        if i < |cells| {
          cells := cells[i := FromEntry(pixels[i])];
        }
        i := i + 1;
      }
    }
  }
}
