/** The draw side: a frame's pixels go to the matrix row after row, and the
    draw loop drops every due frame but the last before it draws. */
module MatrixDraw {
  import opened Wrappers
  import opened LedBuffer

  /** The runtime_error thrown when a frame does not fill the matrix. */
  datatype DrawError = SizeMismatch

  /** Where the pixel of an in-range position sits in a row-major frame. */
  lemma RowMajorInBounds(width: nat, height: nat, x: nat, y: nat)
    requires x < width && y < height
    ensures y * width + x < width * height
  {
    calc {
      y * width + x;
    <
      y * width + width;
    ==
      (y + 1) * width;
    <=
      { MultiplyMonotonic(y + 1, height, width); }
      height * width;
    }
  }

  lemma MultiplyMonotonic(a: nat, b: nat, c: nat)
    requires a <= b
    ensures a * c <= b * c
  {
    assert b * c == a * c + (b - a) * c;
  }

  /** Index `i` of a row-major frame is column `i % width` of row `i / width`. */
  lemma RowMajorSplit(width: nat, height: nat, i: nat)
    requires i < width * height
    ensures 0 < width && i % width < width && i / width < height
    ensures i / width * width + i % width == i
  {
    if width == 0 {
      assert false;
    }
    if i / width >= height {
      MultiplyMonotonic(height, i / width, width);
      assert false;
    }
  }

  /** A position in range is found again at its row-major index. */
  lemma RowMajorJoin(width: nat, x: nat, y: nat)
    requires x < width
    ensures (y * width + x) / width == y && (y * width + x) % width == x
  {
    var i := y * width + x;
    var q, r := i / width, i % width;
    assert q * width + r == y * width + x;
    if q < y {
      MultiplyMonotonic(q + 1, y, width);
      assert false;
    } else if q > y {
      MultiplyMonotonic(y + 1, q, width);
      assert false;
    }
  }

  /** The frame's pixel for column x, row y: frames are laid out row
      after row. */
  function PixelIndex(width: nat, height: nat, x: nat, y: nat): (i: nat)
    requires x < width && y < height
    ensures i < width * height
  {
    RowMajorInBounds(width, height, x, y);
    y * width + x
  }

  /** Every position of the matrix holds the frame's pixel for it. */
  ghost predicate Shows(canvas: array2<Rgb>, pixels: seq<Rgb>)
    reads canvas
    requires |pixels| == canvas.Length0 * canvas.Length1
  {
    forall x, y :: 0 <= x < canvas.Length0 && 0 <= y < canvas.Length1 ==>
      canvas[x, y] == pixels[PixelIndex(canvas.Length0, canvas.Length1, x, y)]
  }

  /** The matrix read back row after row, as a frame's pixels are laid out;
      the first dimension is the column, the second the row. */
  function Scan(canvas: array2<Rgb>): (s: seq<Rgb>)
    reads canvas
    ensures |s| == canvas.Length0 * canvas.Length1
  {
    seq(canvas.Length0 * canvas.Length1,
        i requires 0 <= i < canvas.Length0 * canvas.Length1 reads canvas =>
          RowMajorSplit(canvas.Length0, canvas.Length1, i);
          canvas[i % canvas.Length0, i / canvas.Length0])
  }

  /** A matrix showing a frame reads back as that frame, and only then. */
  lemma ShowsIffScan(canvas: array2<Rgb>, pixels: seq<Rgb>)
    requires |pixels| == canvas.Length0 * canvas.Length1
    ensures Shows(canvas, pixels) <==> Scan(canvas) == pixels
  {
    var w, h := canvas.Length0, canvas.Length1;
    if Shows(canvas, pixels) {
      forall i | 0 <= i < w * h
        ensures Scan(canvas)[i] == pixels[i]
      {
        RowMajorSplit(w, h, i);
        assert canvas[i % w, i / w] == pixels[PixelIndex(w, h, i % w, i / w)];
      }
    }
    if Scan(canvas) == pixels {
      forall x, y | 0 <= x < w && 0 <= y < h
        ensures canvas[x, y] == pixels[PixelIndex(w, h, x, y)]
      {
        RowMajorJoin(w, x, y);
        assert Scan(canvas)[y * w + x] == canvas[x, y];
      }
    }
  }

  /** Writes every pixel of the frame to the matrix, column by column, or
      throws when the frame does not have exactly one pixel per position. */
  method DrawFrame(frame: Frame, canvas: array2<Rgb>) returns (r: Result<(), DrawError>)
    modifies canvas
    ensures r.Success? <==> |frame.pixels| == canvas.Length0 * canvas.Length1
    ensures r.Success? ==> Scan(canvas) == frame.pixels
    ensures r.Failure? ==> r.error == SizeMismatch && unchanged(canvas)
  {
    var width, height := canvas.Length0, canvas.Length1;
    if |frame.pixels| != width * height {
      return Failure(SizeMismatch);
    }
    for x := 0 to width
      invariant forall i, j :: 0 <= i < x && 0 <= j < height ==> canvas[i, j] == frame.pixels[PixelIndex(width, height, i, j)]
    {
      for y := 0 to height
        invariant forall i, j :: 0 <= i < x && 0 <= j < height ==> canvas[i, j] == frame.pixels[PixelIndex(width, height, i, j)]
        invariant forall j :: 0 <= j < y ==> canvas[x, j] == frame.pixels[PixelIndex(width, height, x, j)]
      {
        canvas[x, y] := frame.pixels[PixelIndex(width, height, x, y)];
      }
    }
    ShowsIffScan(canvas, frame.pixels);
    return Success(());
  }

  /** How many frames at the front of the queue are due at `now`: the drain
      stops at the first frame that is not, whatever follows it. */
  function DuePrefix(q: seq<Frame>, now: nat): (k: nat)
    ensures k <= |q|
    ensures forall i :: 0 <= i < k ==> Timestamp(q[i]) <= now
    ensures k < |q| ==> Timestamp(q[k]) > now
  {
    if q == [] || Timestamp(q[0]) > now then 0 else 1 + DuePrefix(q[1..], now)
  }

  /** One pass of the draw loop's inner loop at a fixed clock: every due
      frame is popped, and only the last of them is drawn, since each one
      with a due frame behind it is skipped. */
  method DrainDueFrames(manager: LedBufferManager, canvas: array2<Rgb>, now: nat)
    returns (r: Result<Option<Frame>, DrawError>)
    requires manager.Valid()
    modifies manager, canvas
    ensures manager.Valid()
    ensures var k := DuePrefix(old(manager.buffers), now);
            && manager.buffers == old(manager.buffers)[k..]
            && (k == 0 ==> r == Success(None) && unchanged(canvas))
            && (k > 0 ==>
                  var last := old(manager.buffers)[k - 1];
                  && (r.Success? <==> |last.pixels| == canvas.Length0 * canvas.Length1)
                  && (r.Success? ==> r.value == Some(last) && Scan(canvas) == last.pixels)
                  && (r.Failure? ==> r.error == SizeMismatch && unchanged(canvas)))
  {
    ghost var q := manager.buffers;
    ghost var k := DuePrefix(q, now);
    ghost var j := 0;
    r := Success(None);
    while manager.AgeOfOldestBuffer(now) <= 0
      invariant manager.Valid()
      invariant j <= k && manager.buffers == q[j..]
      invariant j < k || k == 0 ==> r == Success(None) && unchanged(canvas)
      invariant 0 < k == j ==> r == Success(Some(q[k - 1])) && Scan(canvas) == q[k - 1].pixels
      decreases |manager.buffers|
    {
      var buffer := manager.PopOldestBuffer();
      j := j + 1;
      if manager.AgeOfOldestBuffer(now) <= 0 {
        continue;
      }
      var drawn := DrawFrame(buffer.value, canvas);
      if drawn.Failure? {
        return Failure(drawn.error);
      }
      r := Success(buffer);
    }
  }
}
