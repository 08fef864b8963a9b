/** The frame fill of Animation.c: `prepare_frame_thread`, `prepare_frame`
    and `prepare_frame_multithreaded`, with the per-pixel colour (the complex
    formula followed by `color`) abstracted as a function `shade(x, y, i)`. */
module Render {
  import opened Pixels

  /** NUM_THREADS: the number of workers that share a frame. */
  const NumThreads := 12

  /** The colour of pixel (x, y) in frame i. */
  type Shade = (int, int, int) -> Rgb

  /** A set of pixels, as its characteristic predicate on (x, y). */
  type PixelSet = (int, int) -> bool

  /** The shape of an AVFrame's plane 0: pixels per row, rows, and bytes per row. */
  datatype Layout = Layout(width: nat, height: nat, linesize: nat) {
    /** Four bytes per pixel fit in a row, and the buffer holds every row. */
    predicate Fits(size: int) {
      4 * width <= linesize && linesize * height <= size
    }

    /** The first of the four bytes of pixel (x, y). */
    function Offset(x: int, y: int): int {
      linesize * y + 4 * x
    }
  }

  /** The frame (AVFrame): its geometry, its pixel bytes and its timestamp. */
  class Frame {
    const width: nat
    const height: nat
    const linesize: nat
    const data: array<byte>
    var pts: int

    function Geometry(): Layout {
      Layout(width, height, linesize)
    }

    ghost predicate Valid() {
      Geometry().Fits(data.Length)
    }

    /** av_frame_alloc followed by av_frame_get_buffer: a frame whose buffer
        holds `linesize` bytes for each of its rows. */
    constructor (width: nat, height: nat, linesize: nat)
      requires 4 * width <= linesize
      ensures Valid() && fresh(data)
      ensures this.width == width && this.height == height && this.linesize == linesize
      ensures data.Length == linesize * height
    {
      this.width, this.height, this.linesize := width, height, linesize;
      data := new byte[linesize * height];
      pts := 0;
    }
  }

  /** Every pixel. */
  function AllPixels(): PixelSet {
    (x: int, y: int) => true
  }

  /** The pixels of worker `id`: the rows congruent to `id` modulo NumThreads. */
  function WorkerPixels(id: int): PixelSet {
    (x: int, y: int) => y % NumThreads == id
  }

  /** Byte k after the pixels of `done` have been painted with frame i's
      colours: it is channel c of pixel (x, y) when k is S*y + 4*x + c for an
      in-range pixel of `done` and c < 3, and keeps its old value otherwise
      (the fourth byte of each pixel, the row padding, the bytes after the
      last row, and the pixels not in `done`). */
  function PaintedByte(s: seq<byte>, k: int, l: Layout, i: int, shade: Shade, done: PixelSet): byte
    requires 0 <= k < |s|
  {
    if l.linesize == 0 then s[k]
    else
      var y, off := k / l.linesize, k % l.linesize;
      var x, c := off / 4, off % 4;
      if y < l.height && x < l.width && c < 3 && done(x, y) then Channel(shade(x, y, i), c) else s[k]
  }

  /** The whole buffer after painting `done`: the reference against which
      every fill loop is proved. */
  function Paint(s: seq<byte>, l: Layout, i: int, shade: Shade, done: PixelSet): (r: seq<byte>)
    ensures |r| == |s|
  {
    seq(|s|, k requires 0 <= k < |s| => PaintedByte(s, k, l, i, shade, done))
  }

  // ---------------------------------------------------------------------
  // Arithmetic of the byte layout

  lemma MulAtLeast(n: int, m: int)
    requires n > 0 && m >= 1
    ensures n * m >= n
  {
  }

  lemma MulDistributes(n: int, a: int, b: int)
    ensures n * (a - b) == n * a - n * b
  {
  }

  /** Euclidean division of n*q + r by n gives back q and r. */
  lemma DivModUnique(n: int, q: int, r: int)
    requires 0 < n && 0 <= r < n
    ensures (n * q + r) / n == q && (n * q + r) % n == r
  {
    var k := n * q + r;
    var q', r' := k / n, k % n;
    assert n * q' + r' == k;
    MulDistributes(n, q', q);
    if q' > q {
      MulAtLeast(n, q' - q);
    } else if q' < q {
      MulDistributes(n, q, q');
      MulAtLeast(n, q - q');
    }
  }

  /** The row and column a byte index decodes to are not negative. */
  lemma DecodeNonNegative(n: int, k: int)
    requires 0 < n && 0 <= k
    ensures 0 <= k / n
  {
    assert n * (k / n) + k % n == k;
    if k / n < 0 {
      MulAtLeast(n, -(k / n));
      MulDistributes(n, 0, k / n);
    }
  }

  /** Byte c of pixel (x, y) lies in row y at column 4*x + c. */
  lemma OffsetDecodes(l: Layout, x: int, y: int, c: int)
    requires 4 * l.width <= l.linesize
    requires 0 <= x < l.width && 0 <= c < 4
    ensures l.linesize > 0
    ensures (l.Offset(x, y) + c) / l.linesize == y
    ensures (l.Offset(x, y) + c) % l.linesize == 4 * x + c
  {
    DivModUnique(l.linesize, y, 4 * x + c);
  }

  /** The bytes of row y lie inside the buffer. */
  lemma RowInBuffer(l: Layout, size: int, y: int, p: int)
    requires l.Fits(size)
    requires 0 <= y < l.height && 0 <= p < l.linesize
    ensures 0 <= l.linesize * y + p < size
  {
    MulDistributes(l.linesize, l.height, y);
    MulAtLeast(l.linesize, l.height - y);
    assert 0 <= l.linesize * y by {
      if y > 0 { MulAtLeast(l.linesize, y); }
    }
  }

  /** Distinct pixels own disjoint four-byte slots
      [S*y + 4*x, S*y + 4*x + 4), so no two pixels write the same byte. */
  lemma PixelSlotsDisjoint(l: Layout, x1: int, y1: int, c1: int, x2: int, y2: int, c2: int)
    requires 4 * l.width <= l.linesize
    requires 0 <= x1 < l.width && 0 <= x2 < l.width
    requires 0 <= c1 < 4 && 0 <= c2 < 4
    requires (x1, y1) != (x2, y2)
    ensures l.Offset(x1, y1) + c1 != l.Offset(x2, y2) + c2
  {
    OffsetDecodes(l, x1, y1, c1);
    OffsetDecodes(l, x2, y2, c2);
  }

  // ---------------------------------------------------------------------
  // What painting does to each byte

  /** Channel c of a painted pixel holds the pixel's colour; a pixel outside
      `done` keeps its old bytes. */
  lemma PaintAt(s: seq<byte>, l: Layout, i: int, shade: Shade, done: PixelSet, x: int, y: int, c: int)
    requires l.Fits(|s|)
    requires 0 <= x < l.width && 0 <= y < l.height && 0 <= c < 3
    ensures 0 <= l.Offset(x, y) + c < |s|
    ensures Paint(s, l, i, shade, done)[l.Offset(x, y) + c]
         == if done(x, y) then Channel(shade(x, y, i), c) else s[l.Offset(x, y) + c]
  {
    OffsetDecodes(l, x, y, c);
    RowInBuffer(l, |s|, y, 4 * x + c);
  }

  /** The fourth (unused) byte of every pixel is never written. */
  lemma PaintKeepsFourthByte(s: seq<byte>, l: Layout, i: int, shade: Shade, done: PixelSet, x: int, y: int)
    requires l.Fits(|s|)
    requires 0 <= x < l.width && 0 <= y < l.height
    ensures 0 <= l.Offset(x, y) + 3 < |s|
    ensures Paint(s, l, i, shade, done)[l.Offset(x, y) + 3] == s[l.Offset(x, y) + 3]
  {
    OffsetDecodes(l, x, y, 3);
    RowInBuffer(l, |s|, y, 4 * x + 3);
  }

  /** The padding at the end of each row (columns 4*width .. linesize-1) is
      never written. */
  lemma PaintKeepsPadding(s: seq<byte>, l: Layout, i: int, shade: Shade, done: PixelSet, y: int, p: int)
    requires l.Fits(|s|)
    requires 0 <= y < l.height && 4 * l.width <= p < l.linesize
    ensures 0 <= l.linesize * y + p < |s|
    ensures Paint(s, l, i, shade, done)[l.linesize * y + p] == s[l.linesize * y + p]
  {
    DivModUnique(l.linesize, y, p);
    RowInBuffer(l, |s|, y, p);
  }

  /** The bytes after the last row are never written. */
  lemma PaintKeepsTail(s: seq<byte>, l: Layout, i: int, shade: Shade, done: PixelSet, k: int)
    requires l.Fits(|s|) && l.linesize * l.height <= k < |s|
    ensures Paint(s, l, i, shade, done)[k] == s[k]
  {
    if l.linesize > 0 {
      var row := k / l.linesize;
      assert l.linesize * row + k % l.linesize == k;
      if row < l.height {
        MulDistributes(l.linesize, l.height, row);
        MulAtLeast(l.linesize, l.height - row);
      }
    }
  }

  /** A worker leaves every byte of every row it does not own unchanged. */
  lemma WorkerKeepsOtherRows(s: seq<byte>, l: Layout, i: int, shade: Shade, id: int, y: int, p: int)
    requires l.Fits(|s|)
    requires 0 <= y < l.height && 0 <= p < l.linesize && y % NumThreads != id
    ensures 0 <= l.linesize * y + p < |s|
    ensures Paint(s, l, i, shade, WorkerPixels(id))[l.linesize * y + p] == s[l.linesize * y + p]
  {
    DivModUnique(l.linesize, y, p);
    RowInBuffer(l, |s|, y, p);
  }

  /** Painting depends only on which in-range pixels `done` holds. */
  lemma PaintCongruent(s: seq<byte>, l: Layout, i: int, shade: Shade, d1: PixelSet, d2: PixelSet)
    requires forall x, y :: 0 <= x < l.width && 0 <= y < l.height ==> d1(x, y) == d2(x, y)
    ensures Paint(s, l, i, shade, d1) == Paint(s, l, i, shade, d2)
  {
    forall k | 0 <= k < |s|
      ensures PaintedByte(s, k, l, i, shade, d1) == PaintedByte(s, k, l, i, shade, d2)
    {
      if l.linesize > 0 {
        DecodeNonNegative(l.linesize, k);
      }
    }
  }

  /** Painting a set with no in-range pixel changes nothing. */
  lemma PaintNothing(s: seq<byte>, l: Layout, i: int, shade: Shade, none: PixelSet)
    requires forall x, y :: 0 <= x < l.width && 0 <= y < l.height ==> !none(x, y)
    ensures Paint(s, l, i, shade, none) == s
  {
    forall k | 0 <= k < |s|
      ensures PaintedByte(s, k, l, i, shade, none) == s[k]
    {
      if l.linesize > 0 {
        DecodeNonNegative(l.linesize, k);
      }
    }
  }

  /** Painting d1 and then d2 with the same frame's colours is painting
      their union, whichever comes first. */
  lemma PaintCompose(s: seq<byte>, l: Layout, i: int, shade: Shade, d1: PixelSet, d2: PixelSet, both: PixelSet)
    requires forall x, y :: both(x, y) == (d1(x, y) || d2(x, y))
    ensures Paint(Paint(s, l, i, shade, d1), l, i, shade, d2) == Paint(s, l, i, shade, both)
  {
    var s1 := Paint(s, l, i, shade, d1);
    forall k | 0 <= k < |s|
      ensures PaintedByte(s1, k, l, i, shade, d2) == PaintedByte(s, k, l, i, shade, both)
    {
    }
  }

  /** Painting a superset of what an earlier frame painted erases that frame:
      only the later frame's colours remain. */
  lemma PaintOverwrites(s: seq<byte>, l: Layout, i1: int, i2: int, shade: Shade, d1: PixelSet, d2: PixelSet)
    requires forall x, y :: d1(x, y) ==> d2(x, y)
    ensures Paint(Paint(s, l, i1, shade, d1), l, i2, shade, d2) == Paint(s, l, i2, shade, d2)
  {
    var s1 := Paint(s, l, i1, shade, d1);
    forall k | 0 <= k < |s|
      ensures PaintedByte(s1, k, l, i2, shade, d2) == PaintedByte(s, k, l, i2, shade, d2)
    {
    }
  }

  /** A byte outside the colour bytes of pixel (x, y) is painted alike
      whether or not (x, y) is in the painted set. */
  lemma OtherBytesKeep(s: seq<byte>, l: Layout, i: int, shade: Shade, done: PixelSet, done': PixelSet, x: int, y: int, k: int)
    requires 0 <= k < |s| && !(l.Offset(x, y) <= k < l.Offset(x, y) + 3)
    requires forall x', y' :: done'(x', y') == (done(x', y') || (x' == x && y' == y))
    ensures PaintedByte(s, k, l, i, shade, done) == PaintedByte(s, k, l, i, shade, done')
  {
    if l.linesize > 0 {
      var row, off := k / l.linesize, k % l.linesize;
      assert k == l.linesize * row + off;
      assert done'(off / 4, row) == (done(off / 4, row) || (off / 4 == x && row == y));
    }
  }

  /** Writing the three colour bytes of pixel (x, y) adds that pixel to the
      painted set. */
  lemma PaintStep(s: seq<byte>, l: Layout, i: int, shade: Shade, done: PixelSet, done': PixelSet, x: int, y: int)
    requires l.Fits(|s|)
    requires 0 <= x < l.width && 0 <= y < l.height
    requires forall x', y' :: done'(x', y') == (done(x', y') || (x' == x && y' == y))
    ensures 0 <= l.Offset(x, y) && l.Offset(x, y) + 2 < |s|
    ensures var o, c := l.Offset(x, y), shade(x, y, i);
      Paint(s, l, i, shade, done)[o := c.r][o + 1 := c.g][o + 2 := c.b] == Paint(s, l, i, shade, done')
  {
    var o, c := l.Offset(x, y), shade(x, y, i);
    RowInBuffer(l, |s|, y, 4 * x + 2);
    var before := Paint(s, l, i, shade, done);
    var after := before[o := c.r][o + 1 := c.g][o + 2 := c.b];
    forall k | 0 <= k < |s|
      ensures after[k] == PaintedByte(s, k, l, i, shade, done')
    {
      if o <= k < o + 3 {
        OffsetDecodes(l, x, y, k - o);
      } else {
        OtherBytesKeep(s, l, i, shade, done, done', x, y, k);
      }
    }
  }

  // ---------------------------------------------------------------------
  // The row partition

  /** The rows `for (y = start; y < height; y += NUM_THREADS)` visits, in order. */
  function VisitedRows(start: int, height: int): seq<int>
    decreases height - start
  {
    if start >= height then [] else [start] + VisitedRows(start + NumThreads, height)
  }

  lemma {:induction false} VisitedRowsFrom(start: int, height: int, y: int)
    requires 0 <= start
    ensures y in VisitedRows(start, height)
        <==> start <= y < height && y % NumThreads == start % NumThreads
    decreases height - start
  {
    if start < height {
      VisitedRowsFrom(start + NumThreads, height, y);
    }
  }

  /** Worker `id` visits exactly the rows y < height with y % 12 == id, and
      visits them in increasing order. */
  lemma WorkerRowsExact(id: int, height: int)
    requires 0 <= id < NumThreads
    ensures forall y :: y in VisitedRows(id, height) <==> 0 <= y < height && y % NumThreads == id
    ensures forall j, k :: 0 <= j < k < |VisitedRows(id, height)| ==> VisitedRows(id, height)[j] < VisitedRows(id, height)[k]
  {
    forall y ensures y in VisitedRows(id, height) <==> 0 <= y < height && y % NumThreads == id {
      VisitedRowsFrom(id, height, y);
    }
    VisitedRowsIncrease(id, height);
  }

  lemma {:induction false} VisitedRowsIncrease(start: int, height: int)
    ensures forall j, k :: 0 <= j < k < |VisitedRows(start, height)| ==> VisitedRows(start, height)[j] < VisitedRows(start, height)[k]
    ensures forall k :: 0 <= k < |VisitedRows(start, height)| ==> start <= VisitedRows(start, height)[k]
    decreases height - start
  {
    if start < height {
      VisitedRowsIncrease(start + NumThreads, height);
    }
  }

  /** The workers' row sets partition the rows: every row 0 <= y < height is
      visited by exactly one worker, the one with id == y % 12. */
  lemma WorkerRowsPartition(height: int, y: int, id: int)
    requires 0 <= y < height && 0 <= id < NumThreads
    ensures y in VisitedRows(id, height) <==> id == y % NumThreads
  {
    VisitedRowsFrom(id, height, y);
  }

  // ---------------------------------------------------------------------
  // The fill loops

  /** The three stores of one pixel: red, green and blue at S*y + 4*x + 0, 1, 2. */
  method StorePixel(frame: Frame, x: int, y: int, c: Rgb)
    requires frame.Valid() && 0 <= x < frame.width && 0 <= y < frame.height
    modifies frame.data
    ensures var o := frame.Geometry().Offset(x, y);
      0 <= o && o + 2 < frame.data.Length &&
      frame.data[..] == old(frame.data[..])[o := c.r][o + 1 := c.g][o + 2 := c.b]
  {
    RowInBuffer(frame.Geometry(), frame.data.Length, y, 4 * x + 2);
    var start := frame.linesize * y + x * 4;
    frame.data[start] := c.r;
    frame.data[start + 1] := c.g;
    frame.data[start + 2] := c.b;
  }

  /** Two rows of one worker are a multiple of NumThreads apart. */
  lemma SameWorkerRowsApart(y: int, y': int)
    requires y % NumThreads == y' % NumThreads && y <= y' < y + NumThreads
    ensures y == y'
  {
    assert y == NumThreads * (y / NumThreads) + y % NumThreads;
    assert y' == NumThreads * (y' / NumThreads) + y' % NumThreads;
  }

  /** Worker `id`'s progress: its rows above row y, and row y up to column x. */
  function RowsDone(id: int, y: int, x: int): PixelSet {
    (x': int, y': int) => y' % NumThreads == id && (y' < y || (y' == y && x' < x))
  }

  lemma RowsStartEmpty(s: seq<byte>, l: Layout, i: int, shade: Shade, id: int)
    requires 0 <= id < NumThreads
    ensures Paint(s, l, i, shade, RowsDone(id, id, 0)) == s
  {
    forall x', y' | 0 <= x' < l.width && 0 <= y' < l.height ensures !RowsDone(id, id, 0)(x', y') {
      if y' < id {
        assert y' % NumThreads == y';
      }
    }
    PaintNothing(s, l, i, shade, RowsDone(id, id, 0));
  }

  /** A finished row y hands over to the worker's next row y + NumThreads. */
  lemma RowFinished(s: seq<byte>, l: Layout, i: int, shade: Shade, id: int, y: int)
    requires y % NumThreads == id
    ensures Paint(s, l, i, shade, RowsDone(id, y, l.width)) == Paint(s, l, i, shade, RowsDone(id, y + NumThreads, 0))
  {
    forall x', y' | 0 <= x' < l.width && 0 <= y' < l.height
      ensures RowsDone(id, y, l.width)(x', y') == RowsDone(id, y + NumThreads, 0)(x', y')
    {
      if y' % NumThreads == id && y <= y' < y + NumThreads {
        SameWorkerRowsApart(y, y');
      }
    }
    PaintCongruent(s, l, i, shade, RowsDone(id, y, l.width), RowsDone(id, y + NumThreads, 0));
  }

  /** prepare_frame_thread: worker `id` fills rows id, id + 12, id + 24, ...
      (returned, in visiting order, as `rows`) and touches nothing else. */
  method PrepareFrameThread(id: int, i: int, frame: Frame, shade: Shade) returns (ghost rows: seq<int>)
    requires frame.Valid() && 0 <= id < NumThreads
    modifies frame.data
    ensures rows == VisitedRows(id, frame.height)
    ensures frame.data[..] == Paint(old(frame.data[..]), frame.Geometry(), i, shade, WorkerPixels(id))
  {
    ghost var s0 := frame.data[..];
    var l := frame.Geometry();
    var y := id;
    rows := [];
    RowsStartEmpty(s0, l, i, shade, id);
    while y < frame.height
      invariant id <= y && y % NumThreads == id
      invariant rows + VisitedRows(y, frame.height) == VisitedRows(id, frame.height)
      invariant frame.data[..] == Paint(s0, l, i, shade, RowsDone(id, y, 0))
    {
      for x := 0 to frame.width
        invariant frame.data[..] == Paint(s0, l, i, shade, RowsDone(id, y, x))
      {
        var c := shade(x, y, i);
        PaintStep(s0, l, i, shade, RowsDone(id, y, x), RowsDone(id, y, x + 1), x, y);
        StorePixel(frame, x, y, c);
      }
      RowFinished(s0, l, i, shade, id, y);
      assert rows + [y] + VisitedRows(y + NumThreads, frame.height) == rows + VisitedRows(y, frame.height);
      rows := rows + [y];
      y := y + NumThreads;
    }
    assert rows + [] == rows;
    PaintCongruent(s0, l, i, shade, RowsDone(id, y, 0), WorkerPixels(id));
  }

  /** prepare_frame's progress: the columns left of x, and column x above row y. */
  function ColumnsDone(x: int, y: int): PixelSet {
    (x': int, y': int) => x' < x || (x' == x && y' < y)
  }

  /** prepare_frame: the single-threaded fill, column by column. */
  method PrepareFrame(i: int, frame: Frame, shade: Shade)
    requires frame.Valid()
    modifies frame.data
    ensures frame.data[..] == Paint(old(frame.data[..]), frame.Geometry(), i, shade, AllPixels())
  {
    ghost var s0 := frame.data[..];
    var l := frame.Geometry();
    PaintNothing(s0, l, i, shade, ColumnsDone(0, 0));
    for x := 0 to frame.width
      invariant frame.data[..] == Paint(s0, l, i, shade, ColumnsDone(x, 0))
    {
      for y := 0 to frame.height
        invariant frame.data[..] == Paint(s0, l, i, shade, ColumnsDone(x, y))
      {
        var c := shade(x, y, i);
        PaintStep(s0, l, i, shade, ColumnsDone(x, y), ColumnsDone(x, y + 1), x, y);
        StorePixel(frame, x, y, c);
      }
      PaintCongruent(s0, l, i, shade, ColumnsDone(x, frame.height), ColumnsDone(x + 1, 0));
    }
    PaintCongruent(s0, l, i, shade, ColumnsDone(frame.width, 0), AllPixels());
  }

  /** An order in which the twelve worker bodies run: every worker 0..11
      appears, and nothing else. */
  predicate IsWorkerOrder(order: seq<int>) {
    && |order| == NumThreads
    && (forall t :: 0 <= t < NumThreads ==> t in order)
    && (forall k :: 0 <= k < |order| ==> 0 <= order[k] < NumThreads)
  }

  /** The order in which prepare_frame_multithreaded starts the workers. */
  function SpawnOrder(): (order: seq<int>)
    ensures IsWorkerOrder(order)
  {
    [0, 1, 2, 3, 4, 5, 6, 7, 8, 9, 10, 11]
  }

  /** The rows of the first t workers of `order`. */
  function WorkersDone(order: seq<int>, t: int): PixelSet
    requires 0 <= t <= |order|
  {
    (x': int, y': int) => y' % NumThreads in order[..t]
  }

  /** prepare_frame_multithreaded: the twelve worker bodies, run one after
      the other in `order` (standing for any interleaving, since their rows
      are disjoint), fill the frame exactly as prepare_frame does. */
  method PrepareFrameMultithreaded(i: int, frame: Frame, shade: Shade, order: seq<int>)
    requires frame.Valid() && IsWorkerOrder(order)
    modifies frame.data
    ensures frame.data[..] == Paint(old(frame.data[..]), frame.Geometry(), i, shade, AllPixels())
  {
    ghost var s0 := frame.data[..];
    var l := frame.Geometry();
    PaintNothing(s0, l, i, shade, WorkersDone(order, 0));
    for t := 0 to |order|
      invariant frame.data[..] == Paint(s0, l, i, shade, WorkersDone(order, t))
    {
      ghost var rows := PrepareFrameThread(order[t], i, frame, shade);
      assert order[..t + 1] == order[..t] + [order[t]];
      PaintCompose(s0, l, i, shade, WorkersDone(order, t), WorkerPixels(order[t]), WorkersDone(order, t + 1));
    }
    assert order[..|order|] == order;
    PaintCongruent(s0, l, i, shade, WorkersDone(order, |order|), AllPixels());
  }
}
