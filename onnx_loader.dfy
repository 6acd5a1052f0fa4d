/**
 * The model-input adapter of the detector (src/detector/onnx_loader.py):
 * letterbox geometry, the canvas fill and paste, the channel-first packing
 * of the input tensor, the selection of the engine's output and the inverse
 * mapping of boxes from canvas space back to frame space.
 */
module OnnxLoader {
  import opened Wrappers

  /** One 8-bit channel value of an image. */
  newtype byte = x: int | 0 <= x < 256

  /** The value every canvas cell outside the pasted image holds. */
  const PadValue: byte := 114

  /** One detector row: box corners, confidence score and class, as the engine emits them. */
  datatype Row = Row(x1: real, y1: real, x2: real, y2: real, score: real, cls: real)

  /** The engine's single output tensor: a 2-D (N, 6) array, or a 3-D one with a batch dimension. */
  datatype EngineOutput = Matrix(rows: seq<Row>) | Batched(batches: seq<seq<Row>>)

  /** Indexing the batch dimension of an output that has no batch raises. */
  datatype InferError = EmptyBatch

  // ---------------------------------------------------------------------------
  // Python's round() on reals: nearest integer, ties to the even neighbour.

  function RoundHalfEven(x: real): (r: int)
    ensures r as real - x <= 0.5 && x - r as real <= 0.5
    ensures (x - x.Floor as real == 0.5) ==> r % 2 == 0
  {
    var f := x.Floor;
    var d := x - f as real;
    if d < 0.5 then f
    else if d > 0.5 then f + 1
    else if f % 2 == 0 then f
    else f + 1
  }

  /** Rounding an integer-valued real gives that integer back. */
  lemma RoundOfInteger(n: int)
    ensures RoundHalfEven(n as real) == n
  {
    assert (n as real).Floor == n;
  }

  /** Rounding is monotone. */
  lemma RoundMonotone(x: real, y: real)
    requires x <= y
    ensures RoundHalfEven(x) <= RoundHalfEven(y)
  {
    var fx, fy := x.Floor, y.Floor;
    assert fx <= fy;
    if fx == fy {
      assert x - fx as real <= y - fy as real;
    }
  }

  // ---------------------------------------------------------------------------
  // Letterbox geometry (onnx_loader.py:17-24).

  /** Where an h-by-w frame lands on a square canvas of side newSize. */
  datatype Geometry = Geometry(scale: real, nh: int, nw: int, top: int, left: int)

  /** The uniform scale: the smaller of the two axis ratios. */
  function Scale(h: int, w: int, newSize: int): (s: real)
    requires h > 0 && w > 0 && newSize > 0
    ensures s > 0.0
    ensures s <= newSize as real / h as real && s <= newSize as real / w as real
    ensures s == newSize as real / h as real || s == newSize as real / w as real
  {
    var sh, sw := newSize as real / h as real, newSize as real / w as real;
    if sw < sh then sw else sh
  }

  /** Multiplying a bound on s by the positive length keeps it. */
  lemma ScaledBelow(len: real, s: real, n: real)
    requires len > 0.0 && s <= n / len
    ensures len * s <= n
  {
    calc {
      len * s;
    <= { assert len * (n / len - s) >= 0.0; }
      len * (n / len);
    ==
      n;
    }
  }

  /** The resized extent of one axis under scale s still fits the canvas side. */
  lemma ResizedAxisFits(len: int, s: real, newSize: int)
    requires len > 0 && newSize > 0 && s > 0.0
    requires s <= newSize as real / len as real
    ensures 0 <= RoundHalfEven(len as real * s) <= newSize
    ensures s == newSize as real / len as real ==> RoundHalfEven(len as real * s) == newSize
  {
    var x := len as real * s;
    ScaledBelow(len as real, s, newSize as real);
    assert 0.0 <= x;
    RoundMonotone(0.0, x);
    RoundOfInteger(0);
    RoundMonotone(x, newSize as real);
    RoundOfInteger(newSize);
    if s == newSize as real / len as real {
      assert x == newSize as real;
    }
  }

  /**
   * The letterbox geometry: the resized image fits the canvas, the limiting
   * axis fills it exactly, and the padding centres the image (the extra pixel
   * of an odd remainder goes below or to the right).
   */
  function Fit(h: int, w: int, newSize: int): (g: Geometry)
    requires h > 0 && w > 0 && newSize > 0
    ensures g.scale > 0.0
    ensures g.scale == Scale(h, w, newSize)
    ensures 0 <= g.nh <= newSize && 0 <= g.nw <= newSize
    ensures g.scale == newSize as real / h as real ==> g.nh == newSize
    ensures g.scale == newSize as real / w as real ==> g.nw == newSize
    ensures g.top >= 0 && g.left >= 0
    ensures g.top + g.nh <= newSize && g.left + g.nw <= newSize
    ensures 0 <= (newSize - g.nh - g.top) - g.top <= 1
    ensures 0 <= (newSize - g.nw - g.left) - g.left <= 1
  {
    var s := Scale(h, w, newSize);
    ResizedAxisFits(h, s, newSize);
    ResizedAxisFits(w, s, newSize);
    var nh, nw := RoundHalfEven(h as real * s), RoundHalfEven(w as real * s);
    Geometry(s, nh, nw, (newSize - nh) / 2, (newSize - nw) / 2)
  }

  /** Whether canvas cell (i, j) lies in the rectangle the resized image is pasted into. */
  predicate InPaste(g: Geometry, i: int, j: int)
  {
    g.top <= i < g.top + g.nh && g.left <= j < g.left + g.nw
  }

  // ---------------------------------------------------------------------------
  // Inverse mapping of boxes (onnx_loader.py:44-46) and its forward partner.

  /** Canvas-space row to frame-space row: undo the padding, then the scale. */
  function UnmapRow(d: Row, scale: real, padX: int, padY: int): Row
    requires scale > 0.0
  {
    d.(x1 := (d.x1 - padX as real) / scale, x2 := (d.x2 - padX as real) / scale,
       y1 := (d.y1 - padY as real) / scale, y2 := (d.y2 - padY as real) / scale)
  }

  /** Frame-space row to canvas-space row, as the letterbox places the frame. */
  function ForwardRow(d: Row, scale: real, padX: int, padY: int): Row
  {
    d.(x1 := d.x1 * scale + padX as real, x2 := d.x2 * scale + padX as real,
       y1 := d.y1 * scale + padY as real, y2 := d.y2 * scale + padY as real)
  }

  /** Mapping a frame-space box forward and back recovers it exactly, and conversely. */
  lemma UnmapForwardRoundTrip(d: Row, scale: real, padX: int, padY: int)
    requires scale > 0.0
    ensures UnmapRow(ForwardRow(d, scale, padX, padY), scale, padX, padY) == d
    ensures ForwardRow(UnmapRow(d, scale, padX, padY), scale, padX, padY) == d
  {
    var f := ForwardRow(d, scale, padX, padY);
    assert (f.x1 - padX as real) / scale == d.x1;
    assert (f.x2 - padX as real) / scale == d.x2;
    assert (f.y1 - padY as real) / scale == d.y1;
    assert (f.y2 - padY as real) / scale == d.y2;
  }

  /**
   * The inverse map leaves score and class alone and keeps the corner order
   * of each axis, in both directions.
   */
  lemma UnmapKeepsOrder(d: Row, scale: real, padX: int, padY: int)
    requires scale > 0.0
    ensures UnmapRow(d, scale, padX, padY).score == d.score
    ensures UnmapRow(d, scale, padX, padY).cls == d.cls
    ensures d.x1 <= d.x2 <==> UnmapRow(d, scale, padX, padY).x1 <= UnmapRow(d, scale, padX, padY).x2
    ensures d.y1 <= d.y2 <==> UnmapRow(d, scale, padX, padY).y1 <= UnmapRow(d, scale, padX, padY).y2
  {
    var u := UnmapRow(d, scale, padX, padY);
    assert u.x1 * scale == d.x1 - padX as real;
    assert u.x2 * scale == d.x2 - padX as real;
    assert u.y1 * scale == d.y1 - padY as real;
    assert u.y2 * scale == d.y2 - padY as real;
    assert u.x1 <= u.x2 ==> u.x1 * scale <= u.x2 * scale;
    assert u.y1 <= u.y2 ==> u.y1 * scale <= u.y2 * scale;
  }

  /** The detections the engine's output holds (onnx_loader.py:38): a 2-D output as is, else its first batch slice. */
  function Detections(out: EngineOutput): (r: Result<seq<Row>, InferError>)
    ensures r.Err? <==> out.Batched? && |out.batches| == 0
    ensures out.Matrix? ==> r == Ok(out.rows)
    ensures r.Ok? && out.Batched? ==> r.value == out.batches[0]
  {
    match out
    case Matrix(rows) => Ok(rows)
    case Batched(batches) => if |batches| == 0 then Err(EmptyBatch) else Ok(batches[0])
  }

  // ---------------------------------------------------------------------------
  // The adapter object (onnx_loader.py:6-47).

  class YoloOnnx {
    /** Side of the square canvas the model expects. */
    const inputSize: int

    constructor (inputSize: int)
      ensures this.inputSize == inputSize
    {
      this.inputSize := inputSize;
    }

    /**
     * Letterboxes a frame of h rows and w columns onto a newSize-square canvas.
     * `resized` is the frame after the opaque interpolating resize, so its
     * extent is the rounded (nh, nw). Cells of the paste rectangle hold the
     * resized image, every other cell holds the pad value.
     */
    method Letterbox(h: int, w: int, resized: array3<byte>, newSize: int)
      returns (canvas: array3<byte>, scale: real, left: int, top: int)
      requires h > 0 && w > 0 && newSize > 0
      requires resized.Length0 == Fit(h, w, newSize).nh
      requires resized.Length1 == Fit(h, w, newSize).nw
      requires resized.Length2 == 3
      ensures scale == Fit(h, w, newSize).scale
      ensures left == Fit(h, w, newSize).left && top == Fit(h, w, newSize).top
      ensures fresh(canvas)
      ensures canvas.Length0 == newSize && canvas.Length1 == newSize && canvas.Length2 == 3
      ensures forall i, j, c | 0 <= i < newSize && 0 <= j < newSize && 0 <= c < 3 ::
        canvas[i, j, c] == if top <= i < top + resized.Length0 && left <= j < left + resized.Length1
                           then resized[i - top, j - left, c] else PadValue
    {
      var g := Fit(h, w, newSize);
      scale := g.scale;
      top := (newSize - g.nh) / 2;
      left := (newSize - g.nw) / 2;
      canvas := Paste(resized, newSize, top, left);
    }

    /**
     * A newSize-square canvas filled with the pad value, with `resized`
     * copied into the rectangle whose top-left corner is (top, left).
     */
    method Paste(resized: array3<byte>, newSize: int, top: int, left: int) returns (canvas: array3<byte>)
      requires resized.Length2 == 3 && newSize >= 0
      requires 0 <= top && top + resized.Length0 <= newSize
      requires 0 <= left && left + resized.Length1 <= newSize
      ensures fresh(canvas)
      ensures canvas.Length0 == newSize && canvas.Length1 == newSize && canvas.Length2 == 3
      ensures forall i, j, c | 0 <= i < newSize && 0 <= j < newSize && 0 <= c < 3 ::
        canvas[i, j, c] == if top <= i < top + resized.Length0 && left <= j < left + resized.Length1
                           then resized[i - top, j - left, c] else PadValue
    {
      canvas := new byte[newSize, newSize, 3]((i, j, c) => PadValue);
      forall i, j, c | top <= i < top + resized.Length0 && left <= j < left + resized.Length1 && 0 <= c < 3 {
        canvas[i, j, c] := resized[i - top, j - left, c];
      }
    }

    /**
     * Packs a canvas into the input tensor: colour order reversed (BGR to RGB),
     * values divided by 255, channels moved first, batch dimension of 1.
     */
    method Pack(lb: array3<byte>) returns (x: array4<real>)
      requires lb.Length2 == 3
      ensures fresh(x)
      ensures x.Length0 == 1 && x.Length1 == 3
      ensures x.Length2 == lb.Length0 && x.Length3 == lb.Length1
      ensures forall c, i, j | 0 <= c < 3 && 0 <= i < lb.Length0 && 0 <= j < lb.Length1 ::
        x[0, c, i, j] == lb[i, j, 2 - c] as real / 255.0
    {
      x := new real[1, 3, lb.Length0, lb.Length1];
      forall c, i, j | 0 <= c < 3 && 0 <= i < lb.Length0 && 0 <= j < lb.Length1 {
        x[0, c, i, j] := lb[i, j, 2 - c] as real / 255.0;
      }
    }

    /**
     * Copies the detections and rewrites their box columns in place: the x
     * columns lose the horizontal padding, the y columns the vertical one, and
     * both are divided by the one letterbox scale.
     */
    method MapBack(dets: seq<Row>, scale: real, padX: int, padY: int) returns (r: seq<Row>)
      requires scale > 0.0
      ensures |r| == |dets|
      ensures forall k | 0 <= k < |dets| :: r[k] == UnmapRow(dets[k], scale, padX, padY)
    {
      var a := new Row[|dets|](k requires 0 <= k < |dets| => dets[k]);
      forall k | 0 <= k < a.Length {
        a[k] := a[k].(x1 := (a[k].x1 - padX as real) / scale, x2 := (a[k].x2 - padX as real) / scale);
      }
      forall k | 0 <= k < a.Length {
        a[k] := a[k].(y1 := (a[k].y1 - padY as real) / scale, y2 := (a[k].y2 - padY as real) / scale);
      }
      r := a[..];
    }

    /**
     * One inference: letterbox and pack the frame into x, hand x to the engine
     * (whose answer is `engine`), select the detections and map them back.
     * An output without rows gives no detections; an empty batch raises.
     */
    method Infer(h: int, w: int, resized: array3<byte>, engine: EngineOutput)
      returns (x: array4<real>, r: Result<seq<Row>, InferError>)
      requires h > 0 && w > 0 && inputSize > 0
      requires resized.Length0 == Fit(h, w, inputSize).nh
      requires resized.Length1 == Fit(h, w, inputSize).nw
      requires resized.Length2 == 3
      ensures fresh(x)
      ensures x.Length0 == 1 && x.Length1 == 3 && x.Length2 == inputSize && x.Length3 == inputSize
      ensures forall c, i, j | 0 <= c < 3 && 0 <= i < inputSize && 0 <= j < inputSize ::
        x[0, c, i, j] == (if InPaste(Fit(h, w, inputSize), i, j)
                          then resized[i - Fit(h, w, inputSize).top, j - Fit(h, w, inputSize).left, 2 - c]
                          else PadValue) as real / 255.0
      ensures Detections(engine).Err? ==> r == Err(EmptyBatch)
      ensures Detections(engine).Ok? ==>
        r.Ok? && |r.value| == |Detections(engine).value| &&
        forall k | 0 <= k < |r.value| ::
          r.value[k] == UnmapRow(Detections(engine).value[k], Fit(h, w, inputSize).scale,
                                 Fit(h, w, inputSize).left, Fit(h, w, inputSize).top)
    {
      var lb, scale, padX, padY := Letterbox(h, w, resized, inputSize);
      x := Pack(lb);
      var sel := Detections(engine);
      if sel.Err? {
        return x, Err(sel.error);
      }
      var dets := sel.value;
      if |dets| == 0 {
        return x, Ok([]);
      }
      var mapped := MapBack(dets, scale, padX, padY);
      r := Ok(mapped);
    }
  }
}
