/** The coordinate arithmetic of the PNG export (app.js:128-151): cell i of a
    board of `size` cells a side is drawn as a square of side `scale` on a
    canvas of `size * scale` pixels a side. */
module PngExport {

  datatype Rect = Rect(x: int, y: int, side: int)

  /** One `fillRect` call: the square and the fill style it is drawn with. */
  datatype Fill = Fill(block: Rect, style: string)

  /** JavaScript's `%`: the remainder takes the sign of the dividend. */
  function JsRem(a: int, b: int): (r: int)
    requires b != 0
    ensures a >= 0 ==> 0 <= r < (if b > 0 then b else -b)
  {
    if a >= 0 then a % b else -((-a) % b)
  }

  /** `Math.floor(a / b)`. */
  function JsFloorDiv(a: int, b: int): (q: int)
    requires b != 0
    ensures b > 0 ==> q * b <= a < q * b + b
    ensures b < 0 ==> q * b >= a > q * b + b
  {
    if b > 0 then a / b else (-a) / (-b)
  }

  /** app.js:140-144: the square cell i is painted into. */
  function Block(i: int, size: int, scale: int): (b: Rect)
    requires size != 0
    ensures b.side == scale
    ensures i >= 0 && size > 0 ==>
      b.x == (i % size) * scale && b.y == (i / size) * scale && i == (i / size) * size + i % size
  {
    Rect(JsRem(i, size) * scale, JsFloorDiv(i, size) * scale, scale)
  }

  predicate Inside(px: int, py: int, r: Rect) {
    r.x <= px < r.x + r.side && r.y <= py < r.y + r.side
  }

  predicate Disjoint(a: Rect, b: Rect) {
    a.x + a.side <= b.x || b.x + b.side <= a.x || a.y + a.side <= b.y || b.y + b.side <= a.y
  }

  lemma MulMono(a: int, b: int, k: int)
    requires a <= b && k >= 0
    ensures a * k <= b * k
  {
  }

  /** The column and row of cell i, as nats below `size`. */
  lemma CellPosition(i: int, size: int)
    requires size > 0 && 0 <= i < size * size
    ensures 0 <= i % size < size && 0 <= i / size < size
    ensures i == (i / size) * size + i % size
  {
    if i / size >= size {
      MulMono(size, i / size, size);
    }
  }

  /** Every block lies inside the `size * scale` canvas. */
  lemma BlockInCanvas(i: int, size: int, scale: int)
    requires size > 0 && scale > 0 && 0 <= i < size * size
    ensures var b := Block(i, size, scale);
      && b.side == scale
      && 0 <= b.x && b.x + b.side <= size * scale
      && 0 <= b.y && b.y + b.side <= size * scale
  {
    CellPosition(i, size);
    MulMono(i % size + 1, size, scale);
    MulMono(i / size + 1, size, scale);
  }

  /** Different cells are painted into non-overlapping blocks, for either
      sign of the board side. */
  lemma BlocksDisjoint(i: int, j: int, size: int, scale: int)
    requires size != 0 && scale > 0
    requires 0 <= i && 0 <= j && i != j
    ensures Disjoint(Block(i, size, scale), Block(j, size, scale))
  {
    var ci, ri := JsRem(i, size), JsFloorDiv(i, size);
    var cj, rj := JsRem(j, size), JsFloorDiv(j, size);
    assert Block(i, size, scale) == Rect(ci * scale, ri * scale, scale);
    assert Block(j, size, scale) == Rect(cj * scale, rj * scale, scale);
    if ci != cj {
      SpansDisjoint(ci, cj, scale);
    } else {
      if ri == rj {
        SameCellSameIndex(i, j, size);
      }
      SpansDisjoint(ri, rj, scale);
    }
  }

  /** An index is determined by its column and its row. */
  lemma SameCellSameIndex(i: int, j: int, size: int)
    requires size != 0 && 0 <= i && 0 <= j
    requires JsRem(i, size) == JsRem(j, size) && JsFloorDiv(i, size) == JsFloorDiv(j, size)
    ensures i == j
  {
    var m := if size > 0 then size else -size;
    assert -m < i - j < m;
    var q := i / size - j / size;
    assert i - j == size * q by {
      assert i == size * (i / size) + i % size;
      assert j == size * (j / size) + j % size;
    }
    if q != 0 {
      MultipleAtLeast(size, q);
    }
  }

  /** A non-zero multiple of b is at least |b| away from zero. */
  lemma MultipleAtLeast(b: int, q: int)
    requires b != 0 && q != 0
    ensures b * q >= (if b > 0 then b else -b) || b * q <= -(if b > 0 then b else -b)
  {
    var m := if b > 0 then b else -b;
    if q > 0 {
      MulMono(1, q, m);
    } else {
      MulMono(1, -q, m);
    }
    assert b * q == m * q || b * q == -(m * q);
  }

  /** Distinct columns (or rows) occupy non-overlapping spans of `scale` pixels. */
  lemma SpansDisjoint(a: int, b: int, scale: int)
    requires a != b && scale > 0
    ensures a * scale + scale <= b * scale || b * scale + scale <= a * scale
  {
    if a < b {
      MulMono(a + 1, b, scale);
    } else {
      MulMono(b + 1, a, scale);
    }
  }

  /** Every canvas pixel lies in the block of one cell of the board, so the
      blocks tile the canvas. */
  lemma PixelInBlock(px: int, py: int, size: int, scale: int)
    requires size > 0 && scale > 0
    requires 0 <= px < size * scale && 0 <= py < size * scale
    ensures var i := (py / scale) * size + px / scale;
      0 <= i < size * size && Inside(px, py, Block(i, size, scale))
  {
    var col, row := px / scale, py / scale;
    CoordinateCell(px, size, scale);
    CoordinateCell(py, size, scale);
    var i := row * size + col;
    CellIndex(row, col, size);
    DivModUnique(i, size, row, col);
    assert Block(i, size, scale) == Rect(col * scale, row * scale, scale);
  }

  /** A canvas coordinate falls in the span of the column (or row) `p / scale`. */
  lemma CoordinateCell(p: int, size: int, scale: int)
    requires size > 0 && scale > 0 && 0 <= p < size * scale
    ensures 0 <= p / scale < size
    ensures (p / scale) * scale <= p < (p / scale) * scale + scale
  {
    if p / scale >= size {
      MulMono(size, p / scale, scale);
    }
  }

  /** Row and column below `size` name a cell below `size * size`. */
  lemma CellIndex(row: int, col: int, size: int)
    requires 0 <= row < size && 0 <= col < size
    ensures 0 <= row * size + col < size * size
  {
    MulMono(row + 1, size, size);
  }

  /** Quotient and remainder are determined by the division equation. */
  lemma DivModUnique(i: int, size: int, q: int, r: int)
    requires size > 0 && 0 <= r < size && i == q * size + r
    ensures i / size == q && i % size == r
  {
    var q', r' := i / size, i % size;
    if q' < q {
      MulMono(q' + 1, q, size);
    } else if q < q' {
      MulMono(q + 1, q', size);
    }
  }
}
