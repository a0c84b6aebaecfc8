/** The raster the renderer fills: RGBA pixels indexed by column and row, and the
    order in which the sequential renderer visits its cells. */
module Raster {

  newtype byte = x: int | 0 <= x < 256

  /** An 8-bit-per-channel colour; the zero value is transparent black, as in a freshly
      allocated image. */
  datatype RGBA = RGBA(R: byte, G: byte, B: byte, A: byte)

  /** The cells of row `y`, left to right, as (x, y) pairs. */
  function Row(w: nat, y: nat): (cells: seq<(nat, nat)>) {
    seq(w, x requires 0 <= x < w => (x, y))
  }

  /** The cells of a w-by-h raster in the order the nested loops visit them: rows top
      to bottom, each row left to right. */
  function RowMajor(w: nat, h: nat): (cells: seq<(nat, nat)>) {
    if h == 0 then [] else RowMajor(w, h - 1) + Row(w, h - 1)
  }

  lemma {:induction false} RowMajorLength(w: nat, h: nat)
    ensures |RowMajor(w, h)| == w * h
  {
    if h > 0 {
      RowMajorLength(w, h - 1);
      assert w * h == w * (h - 1) + w;
    }
  }

  /** Division by `w` recovers the row and column of position y * w + x. */
  lemma DivModRowMajor(w: nat, x: nat, y: nat)
    requires x < w
    ensures (y * w + x) / w == y && (y * w + x) % w == x
  {
    var i := y * w + x;
    var q, r := i / w, i % w;
    assert i == q * w + r && 0 <= r < w;
    if q < y {
      MulGap(w, q, y);
      assert false;
    } else if q > y {
      MulGap(w, y, q);
      assert false;
    }
  }

  /** Two distinct multiples of a positive `w` are at least `w` apart. */
  lemma MulGap(w: nat, a: int, b: int)
    requires w > 0 && a < b
    ensures a * w + w <= b * w
  {
    var d := b - a - 1;
    assert d >= 0;
    assert b * w == a * w + d * w + w;
    assert d * w >= 0;
  }

  /** The i-th visited cell is (i % w, i / w): the loops run in row-major order. */
  lemma {:induction false} RowMajorAt(w: nat, h: nat, i: nat)
    requires i < w * h
    ensures |RowMajor(w, h)| == w * h
    ensures RowMajor(w, h)[i] == (i % w, i / w)
  {
    RowMajorLength(w, h);
    if h == 0 {
      assert false;
    }
    var y := h - 1;
    RowMajorLength(w, y);
    var before := y * w;
    assert w * y == before && w * h == before + w;
    if i < before {
      RowMajorAt(w, y, i);
    } else {
      var x := i - before;
      assert RowMajor(w, h)[i] == Row(w, y)[x] == (x, y);
      DivModRowMajor(w, x, y);
    }
  }

  /** Every cell (x, y) of the raster is visited, at position y * w + x, and no cell is
      visited twice. */
  lemma RowMajorVisitsEachOnce(w: nat, h: nat, x: nat, y: nat)
    requires x < w && y < h
    ensures y * w + x < |RowMajor(w, h)|
    ensures RowMajor(w, h)[y * w + x] == (x, y)
    ensures forall i :: 0 <= i < |RowMajor(w, h)| && RowMajor(w, h)[i] == (x, y) ==> i == y * w + x
  {
    RowMajorLength(w, h);
    assert (y + 1) * w <= h * w;
    RowMajorAt(w, h, y * w + x);
    DivModRowMajor(w, x, y);
    forall i | 0 <= i < |RowMajor(w, h)| && RowMajor(w, h)[i] == (x, y)
      ensures i == y * w + x
    {
      RowMajorAt(w, h, i);
      assert i == (i / w) * w + i % w;
    }
  }
}
