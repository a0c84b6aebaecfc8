/** The column partitioner of the Mandelbrot renderer: GetRanges splits an image
    width into `partsNum` column ranges, one per worker of the concurrent renderer.
    A worker paints the columns `x` with `Start <= x < End`. */
module Partition {

  /** A column range handed to one worker; the worker treats End as exclusive. */
  datatype Range = Range(Start: int, End: int)

  /** Go's integer division, which truncates toward zero (Dafny's `/` is Euclidean). */
  function GoDiv(a: int, b: int): (q: int)
    requires b != 0
    ensures b > 0 && a >= 0 ==> 0 <= q && q * b <= a < q * b + b
    ensures b > 0 && a < 0 ==> q <= 0 && a <= q * b < a + b
  {
    var m := (if a < 0 then -a else a) / (if b < 0 then -b else b);
    EuclidBounds(if a < 0 then -a else a, if b < 0 then -b else b);
    NegMul(m, b);
    if (a < 0) == (b < 0) then m else -m
  }

  /** Dafny's division on naturals rounds down. */
  lemma EuclidBounds(a: nat, b: nat)
    requires b > 0
    ensures 0 <= a / b && (a / b) * b <= a < (a / b) * b + b
  {
  }

  lemma NegMul(m: int, b: int)
    ensures (-m) * b == -(m * b)
  {
  }

  /** The range the loop appends for `currentPart`, counted from 1. */
  function Part(partsNum: int, width: int, currentPart: int): (r: Range)
    requires partsNum != 0
  {
    var rangeSize := GoDiv(width, partsNum);
    var nMinus := currentPart - 1;
    if nMinus == 0 then Range(0, currentPart * rangeSize)
    else if currentPart == partsNum then Range(nMinus * rangeSize + 1, width)
    else Range(nMinus * rangeSize + 1, currentPart * rangeSize)
  }

  /** Everything GetRanges returns: parts 1 to partsNum, none when partsNum < 0. */
  function Ranges(partsNum: int, width: int): (rs: seq<Range>)
    requires partsNum != 0
  {
    if partsNum < 0 then []
    else seq(partsNum, i requires 0 <= i < partsNum => Part(partsNum, width, i + 1))
  }

  /** Splits `width` into `partsNum` column ranges. A zero `partsNum` is a division
      by zero in the source, so it is the one thing callers must avoid. */
  method GetRanges(partsNum: int, width: int) returns (limits: seq<Range>)
    requires partsNum != 0
    ensures |limits| == if partsNum < 0 then 0 else partsNum
    ensures limits == Ranges(partsNum, width)
  {
    limits := [];
    var rangeSize := GoDiv(width, partsNum);
    var currentPart := 1;
    while currentPart <= partsNum
      invariant partsNum < 0 ==> currentPart == 1
      invariant partsNum > 0 ==> 1 <= currentPart <= partsNum + 1
      invariant |limits| == currentPart - 1
      invariant forall i :: 0 <= i < |limits| ==> limits[i] == Part(partsNum, width, i + 1)
    {
      var nMinus := currentPart - 1;
      if nMinus == 0 {
        limits := limits + [Range(0, currentPart * rangeSize)];
        currentPart := currentPart + 1;
        continue;
      }
      if currentPart == partsNum {
        limits := limits + [Range(nMinus * rangeSize + 1, width)];
        currentPart := currentPart + 1;
        continue;
      }
      limits := limits + [Range(nMinus * rangeSize + 1, currentPart * rangeSize)];
      currentPart := currentPart + 1;
    }
  }

  /** Column `x` lies in `r`: the worker's loop `x := Start; x < End` visits it. */
  predicate Contains(r: Range, x: int) {
    r.Start <= x < r.End
  }

  /** Column `x` is painted by some worker. */
  predicate Covered(rs: seq<Range>, x: int) {
    exists i :: 0 <= i < |rs| && Contains(rs[i], x)
  }

  /** The columns k * rangeSize, 1 <= k < partsNum, where one range ends and the next
      starts one column later. */
  function SkippedColumns(partsNum: int, width: int): (cols: seq<int>)
    requires partsNum >= 1
    ensures |cols| == partsNum - 1
  {
    seq(partsNum - 1, k requires 0 <= k < partsNum - 1 => (k + 1) * GoDiv(width, partsNum))
  }

  /** Multiplying by a non-negative factor keeps order. */
  lemma MulMono(a: int, b: int, c: int)
    requires a <= b && c >= 0
    ensures a * c <= b * c
  {
    assert b * c - a * c == (b - a) * c;
  }

  /** The first range is {0, width/partsNum}; with one part it is {0, width}. */
  lemma FirstRange(partsNum: int, width: int)
    requires partsNum >= 1
    ensures Ranges(partsNum, width)[0] == Range(0, GoDiv(width, partsNum))
    ensures partsNum == 1 ==> Ranges(partsNum, width) == [Range(0, width)]
  {
  }

  /** With two or more parts the last range runs from (partsNum-1)*rangeSize+1 to width. */
  lemma LastRange(partsNum: int, width: int)
    requires partsNum >= 2
    ensures Ranges(partsNum, width)[partsNum - 1]
         == Range((partsNum - 1) * GoDiv(width, partsNum) + 1, width)
  {
  }

  /** Each middle range is {(i-1)*rangeSize+1, i*rangeSize}. */
  lemma MiddleRange(partsNum: int, width: int, i: int)
    requires 1 < i < partsNum
    ensures Ranges(partsNum, width)[i - 1]
         == Range((i - 1) * GoDiv(width, partsNum) + 1, i * GoDiv(width, partsNum))
  {
  }

  /** Each range after the first starts one column after the previous one ends. */
  lemma {:induction false} NextStartsAfterEnd(partsNum: int, width: int, i: int)
    requires 0 <= i < partsNum - 1
    ensures Ranges(partsNum, width)[i + 1].Start == Ranges(partsNum, width)[i].End + 1
  {
    var rs := GoDiv(width, partsNum);
    assert Ranges(partsNum, width)[i].End == (i + 1) * rs;
    assert Ranges(partsNum, width)[i + 1].Start == i * rs + rs + 1;
  }

  /** For a non-negative width the ranges ascend: an earlier range ends before a later
      one starts. */
  lemma {:induction false} RangesAscend(partsNum: int, width: int, i: int, j: int)
    requires width >= 0 && 0 <= i < j < partsNum
    ensures Ranges(partsNum, width)[i].End < Ranges(partsNum, width)[j].Start
  {
    var rs := GoDiv(width, partsNum);
    MulMono(i + 1, j, rs);
    assert Ranges(partsNum, width)[i].End == (i + 1) * rs;
    assert Ranges(partsNum, width)[j].Start == j * rs + 1;
  }

  /** For a non-negative width every bound lies in [0, width + 1], so none leaves the
      range of a 64-bit Go int unless width itself is at its maximum. */
  lemma {:induction false} RangesWithinWidth(partsNum: int, width: int, i: int)
    requires width >= 0 && 0 <= i < partsNum
    ensures 0 <= Ranges(partsNum, width)[i].Start <= width + 1
    ensures 0 <= Ranges(partsNum, width)[i].End <= width
  {
    var rs := GoDiv(width, partsNum);
    MulMono(i, partsNum, rs);
    MulMono(i + 1, partsNum, rs);
    MulMono(0, i, rs);
  }

  /** When there are more parts than columns, rangeSize is 0: the first range is
      {0, 0}, every middle range is {1, 0} and covers nothing, and the last is {1, width}. */
  lemma MorePartsThanColumns(partsNum: int, width: int)
    requires 0 <= width < partsNum
    ensures GoDiv(width, partsNum) == 0
    ensures Ranges(partsNum, width)[0] == Range(0, 0)
    ensures forall i :: 0 < i < partsNum - 1 ==> Ranges(partsNum, width)[i] == Range(1, 0)
    ensures partsNum >= 2 ==> Ranges(partsNum, width)[partsNum - 1] == Range(1, width)
  {
    var rs := GoDiv(width, partsNum);
    if rs > 0 {
      MulMono(1, rs, partsNum);
    }
  }

  /** For a negative width every range is empty: the first ends at rangeSize <= 0, a
      middle range starts above its end, and the last starts above width. */
  lemma {:induction false} NegativeWidthEmpty(partsNum: int, width: int, c: int)
    requires width < 0 && 1 <= c <= partsNum
    ensures Part(partsNum, width, c).End <= Part(partsNum, width, c).Start
  {
    var rs := GoDiv(width, partsNum);
    assert rs <= 0;
    if c != 1 && c == partsNum {
      assert width <= rs * partsNum;
      assert rs * partsNum == (partsNum - 1) * rs + rs;
    }
  }

  /** A column covered by some range lies in [0, width) and is not a skipped column. */
  lemma {:induction false} CoveredIsSound(partsNum: int, width: int, x: int)
    requires partsNum >= 1
    requires Covered(Ranges(partsNum, width), x)
    ensures 0 <= x < width && x !in SkippedColumns(partsNum, width)
  {
    var i :| 0 <= i < partsNum && Contains(Ranges(partsNum, width)[i], x);
    var c := i + 1;
    assert Contains(Part(partsNum, width, c), x);
    if width < 0 {
      NegativeWidthEmpty(partsNum, width, c);
      assert false;
    }
    PartBounds(partsNum, width, c);
    forall k | 0 <= k < partsNum - 1
      ensures SkippedColumns(partsNum, width)[k] != x
    {
      SkippedNotInPart(partsNum, width, c, k + 1, x);
    }
  }

  /** For a non-negative width, part c lies between (c - 1) * rangeSize and width, and
      each part after the first starts one past (c - 1) * rangeSize; every part but the
      last ends at c * rangeSize. */
  lemma {:induction false} PartBounds(partsNum: int, width: int, c: int)
    requires width >= 0 && 1 <= c <= partsNum
    ensures 0 <= (c - 1) * GoDiv(width, partsNum) <= Part(partsNum, width, c).Start
    ensures Part(partsNum, width, c).End <= width
    ensures c > 1 ==> Part(partsNum, width, c).Start == (c - 1) * GoDiv(width, partsNum) + 1
    ensures c < partsNum ==> Part(partsNum, width, c).End == c * GoDiv(width, partsNum)
  {
    var rs := GoDiv(width, partsNum);
    assert 0 <= rs;
    MulMono(0, c - 1, rs);
    MulMono(c, partsNum, rs);
    assert c == 1 ==> Part(partsNum, width, c).End == 1 * rs;
    MulMono(1, partsNum, rs);
  }

  /** A column x inside part c is not the skipped column j * rangeSize (1 <= j < partsNum):
      the skipped columns before the part lie below its start and those after it lie at
      or above its end. */
  lemma {:induction false} SkippedNotInPart(partsNum: int, width: int, c: int, j: int, x: int)
    requires width >= 0 && 1 <= c <= partsNum && 1 <= j < partsNum
    requires Contains(Part(partsNum, width, c), x)
    ensures j * GoDiv(width, partsNum) != x
  {
    var rs := GoDiv(width, partsNum);
    PartBounds(partsNum, width, c);
    if j <= c - 1 {
      MulMono(j, c - 1, rs);
    } else {
      MulMono(c, j, rs);
    }
  }

  /** A column of [0, width) beyond (partsNum - 1) * rangeSize lies in the last part. */
  lemma {:induction false} InLastPart(partsNum: int, width: int, x: int)
    requires partsNum >= 2
    requires (partsNum - 1) * GoDiv(width, partsNum) < x < width
    ensures Contains(Ranges(partsNum, width)[partsNum - 1], x)
  {
    var rs := GoDiv(width, partsNum);
    assert Ranges(partsNum, width)[partsNum - 1] == Range((partsNum - 1) * rs + 1, width);
  }

  /** A column in [0, width) that is not a skipped column is covered by some range. */
  lemma {:induction false} CoveredIsComplete(partsNum: int, width: int, x: int)
    requires partsNum >= 1
    requires 0 <= x < width && x !in SkippedColumns(partsNum, width)
    ensures Covered(Ranges(partsNum, width), x)
  {
    var rs := GoDiv(width, partsNum);
    var ranges := Ranges(partsNum, width);
    if partsNum == 1 {
      assert Contains(ranges[0], x);
    } else if rs == 0 {
      assert SkippedColumns(partsNum, width)[0] == 0;
      InLastPart(partsNum, width, x);
      assert Contains(ranges[partsNum - 1], x);
    } else {
      EuclidBounds(x, rs);
      CoveredInBlock(partsNum, width, x, x / rs);
    }
  }

  /** The case analysis of CoveredIsComplete for a positive rangeSize, where column x
      lies in block k, between k * rangeSize and (k + 1) * rangeSize. */
  lemma {:induction false} CoveredInBlock(partsNum: int, width: int, x: int, k: int)
    requires partsNum >= 2 && GoDiv(width, partsNum) > 0 && k >= 0
    requires 0 <= x < width && x !in SkippedColumns(partsNum, width)
    requires k * GoDiv(width, partsNum) <= x < k * GoDiv(width, partsNum) + GoDiv(width, partsNum)
    ensures Covered(Ranges(partsNum, width), x)
  {
    var rs := GoDiv(width, partsNum);
    var ranges := Ranges(partsNum, width);
    if k == 0 {
      InFirstPart(partsNum, width, x);
      assert Contains(ranges[0], x);
    } else if k < partsNum - 1 {
      assert SkippedColumns(partsNum, width)[k - 1] == k * rs;
      InMiddlePart(partsNum, width, k, x);
      assert Contains(ranges[k], x);
    } else {
      assert SkippedColumns(partsNum, width)[partsNum - 2] == (partsNum - 1) * rs;
      MulMono(partsNum - 1, k, rs);
      InLastPart(partsNum, width, x);
      assert Contains(ranges[partsNum - 1], x);
    }
  }

  /** A column below rangeSize lies in the first part. */
  lemma {:induction false} InFirstPart(partsNum: int, width: int, x: int)
    requires partsNum >= 2 && width >= 0
    requires 0 <= x < GoDiv(width, partsNum)
    ensures Contains(Ranges(partsNum, width)[0], x)
  {
    PartBounds(partsNum, width, 1);
  }

  /** A column strictly between k * rangeSize and (k + 1) * rangeSize, for a middle
      part k + 1, lies in that part. */
  lemma {:induction false} InMiddlePart(partsNum: int, width: int, k: int, x: int)
    requires 1 <= k < partsNum - 1 && width >= 0
    requires k * GoDiv(width, partsNum) < x < k * GoDiv(width, partsNum) + GoDiv(width, partsNum)
    ensures Contains(Ranges(partsNum, width)[k], x)
  {
    var rs := GoDiv(width, partsNum);
    PartBounds(partsNum, width, k + 1);
    assert (k + 1) * rs == k * rs + rs;
  }

  /** The columns the workers paint are exactly [0, width) minus the skipped columns
      k * rangeSize, 1 <= k < partsNum: the ranges are not a gap-free partition. */
  lemma CoverageExact(partsNum: int, width: int, x: int)
    requires partsNum >= 1
    ensures Covered(Ranges(partsNum, width), x)
        <==> 0 <= x < width && x !in SkippedColumns(partsNum, width)
  {
    if Covered(Ranges(partsNum, width), x) {
      CoveredIsSound(partsNum, width, x);
    }
    if 0 <= x < width && x !in SkippedColumns(partsNum, width) {
      CoveredIsComplete(partsNum, width, x);
    }
  }

  /** Column k * rangeSize lies in no range, for each 1 <= k < partsNum. */
  lemma GapColumn(partsNum: int, width: int, k: int)
    requires 1 <= k < partsNum
    ensures !Covered(Ranges(partsNum, width), k * GoDiv(width, partsNum))
    ensures width >= 1 ==> 0 <= k * GoDiv(width, partsNum) < width
  {
    var rs := GoDiv(width, partsNum);
    var x := k * rs;
    assert SkippedColumns(partsNum, width)[k - 1] == x;
    CoverageExact(partsNum, width, x);
    if width >= 1 {
      MulMono(0, k, rs);
      MulMono(k, partsNum - 1, rs);
      assert partsNum * rs == (partsNum - 1) * rs + rs;
    }
  }

  /** With two or more parts over a non-empty image, some column of the image is painted
      by no worker: the as-written ranges are never a partition of [0, width). */
  lemma NotAPartition(partsNum: int, width: int)
    requires partsNum >= 2 && width >= 1
    ensures exists x :: 0 <= x < width && !Covered(Ranges(partsNum, width), x)
  {
    GapColumn(partsNum, width, 1);
    var x := 1 * GoDiv(width, partsNum);
    assert 0 <= x < width && !Covered(Ranges(partsNum, width), x);
  }

  /** No column is painted by two workers. */
  lemma {:induction false} RangesDisjoint(partsNum: int, width: int, i: int, j: int, x: int)
    requires 0 <= i < j < partsNum
    ensures !(Contains(Ranges(partsNum, width)[i], x) && Contains(Ranges(partsNum, width)[j], x))
  {
    if Contains(Ranges(partsNum, width)[j], x) {
      assert Covered(Ranges(partsNum, width), x);
      CoveredIsSound(partsNum, width, x);
      RangesAscend(partsNum, width, i, j);
    }
  }

  /** The column of the worked example where the as-written ranges leave a gap: with
      two parts over ten columns the ranges are {0, 5} and {6, 10}, and column 5 is
      painted by neither worker. */
  lemma GapExample()
    ensures Ranges(2, 10) == [Range(0, 5), Range(6, 10)]
    ensures !Covered(Ranges(2, 10), 5)
    ensures Covered(CorrectedRanges(2, 10), 5)
  {
    GapColumn(2, 10, 1);
    assert Contains(CorrectedRanges(2, 10)[1], 5);
  }

  /** The evidently intended part: each range after the first starts where the previous
      one ended, at (currentPart - 1) * rangeSize. */
  function CorrectedPart(partsNum: int, width: int, currentPart: int): (r: Range)
    requires partsNum != 0
  {
    var rangeSize := GoDiv(width, partsNum);
    var nMinus := currentPart - 1;
    if nMinus == 0 then Range(0, currentPart * rangeSize)
    else if currentPart == partsNum then Range(nMinus * rangeSize, width)
    else Range(nMinus * rangeSize, currentPart * rangeSize)
  }

  function CorrectedRanges(partsNum: int, width: int): (rs: seq<Range>)
    requires partsNum != 0
  {
    if partsNum < 0 then []
    else seq(partsNum, i requires 0 <= i < partsNum => CorrectedPart(partsNum, width, i + 1))
  }

  /** With the corrected start, the workers paint exactly the columns [0, width). */
  lemma {:induction false} CorrectedCoverage(partsNum: int, width: int, x: int)
    requires partsNum >= 1 && width >= 0
    ensures Covered(CorrectedRanges(partsNum, width), x) <==> 0 <= x < width
  {
    var rs := GoDiv(width, partsNum);
    var ranges := CorrectedRanges(partsNum, width);
    if Covered(ranges, x) {
      var i :| 0 <= i < partsNum && Contains(ranges[i], x);
      CorrectedPartBounds(partsNum, width, i + 1);
    }
    if 0 <= x < width {
      if partsNum == 1 {
        assert Contains(ranges[0], x);
      } else if rs == 0 {
        assert Contains(ranges[partsNum - 1], x);
      } else {
        EuclidBounds(x, rs);
        CorrectedInBlock(partsNum, width, x, x / rs);
      }
    }
  }

  /** For a non-negative width, corrected part c runs from (c - 1) * rangeSize, and every
      part but the last ends at c * rangeSize; all lie within [0, width]. */
  lemma {:induction false} CorrectedPartBounds(partsNum: int, width: int, c: int)
    requires width >= 0 && 1 <= c <= partsNum
    ensures 0 <= CorrectedPart(partsNum, width, c).Start == (c - 1) * GoDiv(width, partsNum)
    ensures CorrectedPart(partsNum, width, c).End <= width
    ensures c < partsNum ==> CorrectedPart(partsNum, width, c).End == c * GoDiv(width, partsNum)
  {
    var rs := GoDiv(width, partsNum);
    assert 0 <= rs;
    MulMono(0, c - 1, rs);
    MulMono(c, partsNum, rs);
    assert c == 1 ==> CorrectedPart(partsNum, width, c).End == 1 * rs;
    MulMono(1, partsNum, rs);
  }

  /** Column x of block k (k * rangeSize <= x < (k + 1) * rangeSize) lies in corrected
      part k + 1, or in the last part when k is beyond it. */
  lemma {:induction false} CorrectedInBlock(partsNum: int, width: int, x: int, k: int)
    requires partsNum >= 2 && width >= 0 && k >= 0 && 0 <= x < width
    requires GoDiv(width, partsNum) > 0
    requires k * GoDiv(width, partsNum) <= x < k * GoDiv(width, partsNum) + GoDiv(width, partsNum)
    ensures Covered(CorrectedRanges(partsNum, width), x)
  {
    var rs := GoDiv(width, partsNum);
    var ranges := CorrectedRanges(partsNum, width);
    if k < partsNum - 1 {
      CorrectedPartBounds(partsNum, width, k + 1);
      assert (k + 1) * rs == k * rs + rs;
      assert Contains(ranges[k], x);
    } else {
      CorrectedPartBounds(partsNum, width, partsNum);
      MulMono(partsNum - 1, k, rs);
      assert CorrectedPart(partsNum, width, partsNum).End == width;
      assert Contains(ranges[partsNum - 1], x);
    }
  }

  /** With the corrected start, no column is painted by two workers. */
  lemma {:induction false} CorrectedDisjoint(partsNum: int, width: int, i: int, j: int, x: int)
    requires width >= 0 && 0 <= i < j < partsNum
    ensures !(Contains(CorrectedRanges(partsNum, width)[i], x)
              && Contains(CorrectedRanges(partsNum, width)[j], x))
  {
    var rs := GoDiv(width, partsNum);
    MulMono(i + 1, j, rs);
    assert CorrectedRanges(partsNum, width)[i].End == (i + 1) * rs;
    assert CorrectedRanges(partsNum, width)[j].Start == j * rs;
  }
}
