/** VideoFrameNumPyWrapper: the Python-facing view of a gg::VideoFrame. It
    either borrows a frame or creates and owns one, mirrors the frame's
    specs into its own fields, and describes the frame's bytes as an array
    shape and strides for NumPy. */
module NumPyWrapper {
  import opened Errors
  import opened Frames

  /** The shape, the strides (in bytes) and the stereo view of the array
      that `stereo_data_as_ndarray` builds over a frame's buffer. */
  datatype ArrayView = ArrayView(shape: seq<nat>, strides: seq<nat>, view: nat)

  const StructuredOnlyBGRA := "Structured NumPy arrays supported only for BGRA"

  /** The number of elements an array of this shape holds. */
  function Extent(shape: seq<nat>): nat
  {
    if shape == [] then 1 else shape[0] * Extent(shape[1..])
  }

  /** C-contiguous layout of one-byte elements: the last axis has stride 1 and
      each stride is the next stride times the next extent. */
  predicate RowMajor(shape: seq<nat>, strides: seq<nat>)
  {
    && |shape| == |strides| >= 1
    && strides[|strides| - 1] == 1
    && forall k :: 0 <= k < |shape| - 1 ==> strides[k] == strides[k + 1] * shape[k + 1]
  }

  /** The byte offset of the last element of the array. */
  function LastOffset(shape: seq<nat>, strides: seq<nat>): int
    requires |shape| == |strides|
  {
    if shape == [] then 0
    else (shape[0] - 1) * strides[0] + LastOffset(shape[1..], strides[1..])
  }

  /** In a row-major layout with no empty axis, the first stride times the first
      extent is the element count, and the last element sits at offset
      count - 1. */
  lemma {:induction false} RowMajorIsDense(shape: seq<nat>, strides: seq<nat>)
    requires RowMajor(shape, strides)
    requires forall k :: 0 <= k < |shape| ==> shape[k] >= 1
    ensures strides[0] * shape[0] == Extent(shape)
    ensures LastOffset(shape, strides) == Extent(shape) - 1
  {
    var rest, rs := shape[1..], strides[1..];
    if |shape| == 1 {
      assert rest == [] && rs == [];
      assert Extent(shape) == shape[0];
      assert LastOffset(shape, strides) == shape[0] - 1;
    } else {
      assert RowMajor(rest, rs) by {
        assert rs[|rs| - 1] == strides[|strides| - 1];
        forall k | 0 <= k < |rest| - 1 ensures rs[k] == rs[k + 1] * rest[k + 1] {
          assert rs[k] == strides[k + 1] && rs[k + 1] == strides[k + 2] && rest[k + 1] == shape[k + 2];
        }
      }
      assert forall k :: 0 <= k < |rest| ==> rest[k] == shape[k + 1];
      RowMajorIsDense(rest, rs);
      var e: int := Extent(rest);
      assert strides[0] == rs[0] * rest[0] == e;
      calc {
        LastOffset(shape, strides);
        (shape[0] - 1) * e + (e - 1);
        { assert (shape[0] - 1) * e == shape[0] * e - e; }
        shape[0] * e - 1;
      }
    }
  }

  /** VideoFrameNumPyWrapper. `frame` is `_frame`; the remaining fields are
      those the wrapper inherits from gg::VideoFrame and keeps in step with
      the wrapped frame. */
  class FrameView {
    var frame: VideoFrame
    /** True when this wrapper created `frame` and must delete it. */
    var manageFrame: bool
    var manageData: bool
    var colour: ColourSpace
    var cols: nat
    var rows: nat
    var dataLength: nat
    var stereoCount: nat
    /** The frame whose first view the inherited data pointer refers to. */
    var dataOf: VideoFrame

    /** The inherited specs mirror the wrapped frame: same colour, size and
        stereo count, the data pointer into that frame, and a data length of
        one view's length times the number of views. */
    ghost predicate Synced()
      reads this
    {
      && frame.Valid()
      && colour == frame.colour
      && cols == frame.cols
      && rows == frame.rows
      && dataOf == frame
      && stereoCount == frame.StereoCount()
      && dataLength == frame.viewLengths[0] * frame.StereoCount()
    }

    /** `sync_specs()`. */
    method SyncSpecs()
      requires frame.Valid()
      modifies this
      ensures Synced()
      ensures frame == old(frame) && manageFrame == old(manageFrame) && manageData == old(manageData)
    {
      colour := frame.colour;
      cols := frame.cols;
      rows := frame.rows;
      dataOf := frame;
      dataLength := frame.viewLengths[0] * frame.StereoCount();
      stereoCount := frame.StereoCount();
    }

    /** `VideoFrameNumPyWrapper(gg::VideoFrame * frame)`: borrows `f`, whose
        lifetime stays with the caller. */
    constructor Wrap(f: VideoFrame)
      requires f.Valid()
      ensures frame == f && !manageFrame && !manageData && Synced()
    {
      frame, manageFrame, manageData, dataOf := f, false, false, f;
      new;
      SyncSpecs();
    }

    /** `VideoFrameNumPyWrapper(const gg::VideoFrame & rhs)`: wraps a new copy
        of `rhs` that it owns. */
    constructor Copy(rhs: VideoFrame)
      requires rhs.Valid()
      ensures fresh(frame) && frame != rhs
      ensures frame.colour == rhs.colour && frame.cols == rhs.cols && frame.rows == rhs.rows
      ensures frame.viewLengths == rhs.viewLengths && frame.manageData && !frame.deleted
      ensures manageFrame && !manageData && Synced()
    {
      var f := new VideoFrame(rhs.colour, rhs.cols, rhs.rows, rhs.viewLengths, true);
      frame, manageFrame, manageData, dataOf := f, true, false, f;
      new;
      SyncSpecs();
    }

    /** `VideoFrameNumPyWrapper(colour, cols, rows)`: owns a new mono frame;
        `viewLength` is the byte length gg::VideoFrame allots to it. */
    constructor Shaped(colour: ColourSpace, cols: nat, rows: nat, viewLength: nat)
      ensures fresh(frame) && !frame.deleted
      ensures frame.colour == colour && frame.cols == cols && frame.rows == rows
      ensures frame.viewLengths == [viewLength]
      ensures manageFrame && !manageData && Synced()
      ensures stereoCount == 1 && dataLength == viewLength
    {
      var f := new VideoFrame(colour, cols, rows, [viewLength], true);
      frame, manageFrame, manageData, dataOf := f, true, false, f;
      new;
      SyncSpecs();
    }

    /** `VideoFrameNumPyWrapper(colour, cols, rows, stereo_count)`: owns a new
        frame of `stereoCount` views of `viewLength` bytes each; the mirrored
        data length is the byte count of all views together. */
    constructor Stereo(colour: ColourSpace, cols: nat, rows: nat, stereoCount: nat, viewLength: nat)
      requires stereoCount >= 1
      ensures fresh(frame) && !frame.deleted
      ensures frame.colour == colour && frame.cols == cols && frame.rows == rows
      ensures frame.viewLengths == seq(stereoCount, _ => viewLength)
      ensures manageFrame && !manageData && Synced()
      ensures this.stereoCount == stereoCount && dataLength == Sum(frame.viewLengths)
    {
      var v := seq(stereoCount, _ => viewLength);
      var f := new VideoFrame(colour, cols, rows, v, true);
      frame, manageFrame, manageData, dataOf := f, true, false, f;
      new;
      SyncSpecs();
      UniformViewsTotal(v);
    }

    /** `VideoFrameNumPyWrapper(colour, manage_data)`: owns a new placeholder
        frame with no bound dimensions. */
    constructor Placeholder(colour: ColourSpace, frameManagesData: bool)
      ensures fresh(frame) && !frame.deleted
      ensures frame.colour == colour && frame.cols == 0 && frame.rows == 0
      ensures frame.manageData == frameManagesData
      ensures manageFrame && !manageData && Synced()
    {
      var f := new VideoFrame(colour, 0, 0, [0], frameManagesData);
      frame, manageFrame, manageData, dataOf := f, true, false, f;
      new;
      SyncSpecs();
    }

    /** `~VideoFrameNumPyWrapper()`: deletes the wrapped frame exactly when
        this wrapper manages it. */
    method Destroy()
      modifies if manageFrame then {frame} else {}
      ensures frame.deleted == (old(frame.deleted) || manageFrame)
    {
      if manageFrame {
        frame.deleted := true;
      }
    }

    /** `stereo_data_as_ndarray(structured, stereo_index)`, without building
        the array: the shape and strides it would use, or the exception. */
    function StereoDataAsArray(structured: bool, stereoIndex: nat): (r: Result<ArrayView>)
      reads this
      ensures r.Ok? ==> RowMajor(r.value.shape, r.value.strides)
      ensures r.Ok? ==> r.value.view == stereoIndex < frame.StereoCount()
      ensures r.Ok? <==> stereoIndex < frame.StereoCount() && (!structured || colour == BGRA)
      ensures structured && r.Ok? ==> colour == BGRA && r.value.shape == [frame.rows, frame.cols, 4]
      ensures structured && r.Ok? ==> r.value.strides == [frame.cols * 4, 4, 1]
      ensures structured && colour != BGRA ==> r == Err(BasicException(StructuredOnlyBGRA))
      ensures !structured && r.Ok? ==> r.value.shape == [frame.viewLengths[stereoIndex]]
      ensures r == Err(OutOfRange) <==> stereoIndex >= frame.StereoCount() && (!structured || colour == BGRA)
    {
      if structured then
        match colour
        case BGRA =>
          if stereoIndex < frame.StereoCount() then
            Ok(ArrayView([frame.rows, frame.cols, 4], [frame.cols * 4, 4, 1], stereoIndex))
          else Err(OutOfRange)
        case I420 => Err(BasicException(StructuredOnlyBGRA))
        case UYVY => Err(BasicException(StructuredOnlyBGRA))
      else if stereoIndex < frame.StereoCount() then
        Ok(ArrayView([frame.viewLengths[stereoIndex]], [1], stereoIndex))
      else Err(OutOfRange)
    }
  }

  /** A structured view of a non-empty BGRA frame holds rows * cols * 4
      one-byte elements, the last at byte rows * cols * 4 - 1. */
  lemma StructuredViewCoversFrame(w: FrameView, stereoIndex: nat)
    requires w.colour == BGRA && stereoIndex < w.frame.StereoCount()
    requires w.frame.rows >= 1 && w.frame.cols >= 1
    ensures w.StereoDataAsArray(true, stereoIndex).Ok?
    ensures w.StereoDataAsArray(true, stereoIndex).value.strides == [w.frame.cols * 4, 4, 1]
    ensures Extent(w.StereoDataAsArray(true, stereoIndex).value.shape) == w.frame.rows * w.frame.cols * 4
    ensures LastOffset(w.StereoDataAsArray(true, stereoIndex).value.shape,
                       w.StereoDataAsArray(true, stereoIndex).value.strides) == w.frame.rows * w.frame.cols * 4 - 1
  {
    var a := w.StereoDataAsArray(true, stereoIndex).value;
    RowMajorIsDense(a.shape, a.strides);
    assert Extent(a.shape) == w.frame.rows * (w.frame.cols * 4);
  }

  /** The byte that the structured index (row, column, channel) reaches. */
  function StructuredOffset(a: ArrayView, r: nat, c: nat, k: nat): int
    requires |a.strides| == 3
  {
    r * a.strides[0] + c * a.strides[1] + k * a.strides[2]
  }

  /** Digits in a mixed radix: a smaller leading digit gives a smaller number. */
  lemma {:induction false} LeadingDigitOrders(a: nat, b: nat, x: nat, y: nat, m: nat)
    requires a < b && x < m
    ensures a * m + x < b * m + y
  {
    var d: nat := b - a - 1;
    assert (a + 1) * m == a * m + m;
    assert b * m == (a + 1) * m + d * m;
    assert d * m >= 0;
  }

  /** Distinct structured indices of a BGRA frame reach distinct bytes:
      the structured array has no overlap. */
  lemma {:induction false} StructuredOffsetsDistinct(w: FrameView, stereoIndex: nat,
                                                     r1: nat, c1: nat, k1: nat,
                                                     r2: nat, c2: nat, k2: nat)
    requires w.colour == BGRA && stereoIndex < w.frame.StereoCount()
    requires r1 < w.frame.rows && c1 < w.frame.cols && k1 < 4
    requires r2 < w.frame.rows && c2 < w.frame.cols && k2 < 4
    requires (r1, c1, k1) != (r2, c2, k2)
    ensures w.StereoDataAsArray(true, stereoIndex).Ok?
    ensures StructuredOffset(w.StereoDataAsArray(true, stereoIndex).value, r1, c1, k1)
         != StructuredOffset(w.StereoDataAsArray(true, stereoIndex).value, r2, c2, k2)
  {
    var a := w.StereoDataAsArray(true, stereoIndex).value;
    var m: nat := w.frame.cols * 4;
    var d1, d2 := c1 * 4 + k1, c2 * 4 + k2;
    LeadingDigitOrders(c1, w.frame.cols, k1, 0, 4);
    LeadingDigitOrders(c2, w.frame.cols, k2, 0, 4);
    assert StructuredOffset(a, r1, c1, k1) == r1 * m + d1;
    assert StructuredOffset(a, r2, c2, k2) == r2 * m + d2;
    if r1 < r2 {
      LeadingDigitOrders(r1, r2, d1, d2, m);
    } else if r2 < r1 {
      LeadingDigitOrders(r2, r1, d2, d1, m);
    } else if c1 < c2 {
      LeadingDigitOrders(c1, c2, k1, k2, 4);
    } else if c2 < c1 {
      LeadingDigitOrders(c2, c1, k2, k1, 4);
    }
  }

  /** Division by the radix splits a number below n * m into a leading digit
      below n and a remainder below m. */
  lemma {:induction false} SplitDigit(b: nat, n: nat, m: nat) returns (q: nat, x: nat)
    requires b < n * m
    ensures q < n && x < m && b == q * m + x
  {
    assert m > 0;
    q, x := b / m, b % m;
    assert b == q * m + x;
    assert n * m - q * m == (n - q) * m;
    assert (n - q) * m > 0;
  }

  /** Every byte below rows * cols * 4 is reached by some structured index
      of a BGRA frame: the structured array has no gap. */
  lemma {:induction false} StructuredOffsetsCover(w: FrameView, stereoIndex: nat, b: nat)
      returns (r: nat, c: nat, k: nat)
    requires w.colour == BGRA && stereoIndex < w.frame.StereoCount()
    requires b < w.frame.rows * w.frame.cols * 4
    ensures w.StereoDataAsArray(true, stereoIndex).Ok?
    ensures r < w.frame.rows && c < w.frame.cols && k < 4
    ensures StructuredOffset(w.StereoDataAsArray(true, stereoIndex).value, r, c, k) == b
  {
    var a := w.StereoDataAsArray(true, stereoIndex).value;
    var m: nat := w.frame.cols * 4;
    assert w.frame.rows * w.frame.cols * 4 == w.frame.rows * m;
    var rest;
    r, rest := SplitDigit(b, w.frame.rows, m);
    c, k := SplitDigit(rest, w.frame.cols, 4);
    assert StructuredOffset(a, r, c, k) == r * m + c * 4 + k;
  }

  /** A flat view covers exactly `data_length(stereo_index)` bytes, whatever
      the colour. */
  lemma FlatViewCoversView(w: FrameView, stereoIndex: nat)
    requires stereoIndex < w.frame.StereoCount()
    ensures w.StereoDataAsArray(false, stereoIndex).Ok?
    ensures Extent(w.StereoDataAsArray(false, stereoIndex).value.shape) == w.frame.viewLengths[stereoIndex]
  {
    var a := w.StereoDataAsArray(false, stereoIndex).value;
    assert a.shape[1..] == [];
  }

  /** A borrowing wrapper never deletes the frame it wraps. */
  method BorrowedFrameSurvives(f: VideoFrame)
    requires f.Valid() && !f.deleted
    ensures !f.deleted
  {
    var w := new FrameView.Wrap(f);
    w.Destroy();
  }

  /** A wrapper over a copy deletes its own copy and leaves the original alone. */
  method CopiedFrameIsReleased(f: VideoFrame) returns (c: VideoFrame)
    requires f.Valid() && !f.deleted
    ensures c != f && c.deleted && !f.deleted
  {
    var w := new FrameView.Copy(f);
    c := w.frame;
    w.Destroy();
  }
}
