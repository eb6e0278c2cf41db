/** gg::VideoFrame, seen only through the accessors the NumPy wrapper calls.
    Its byte-length arithmetic and allocation are not part of this model:
    the length of each stereo view is given to the constructor. */
module Frames {

  /** gg::ColourSpace. */
  datatype ColourSpace = BGRA | I420 | UYVY

  class VideoFrame {
    /** `colour()`, `cols()`, `rows()`. */
    const colour: ColourSpace
    const cols: nat
    const rows: nat
    /** `data_length(i)` for each valid stereo index `i`. */
    const viewLengths: seq<nat>
    /** Whether this frame owns its pixel buffer. */
    const manageData: bool
    /** Set once `delete` has run on this frame. */
    var deleted: bool

    /** `stereo_count()`: one buffer per stereo view. */
    function StereoCount(): nat
    {
      |viewLengths|
    }

    /** Every frame holds at least one view. */
    predicate Valid()
    {
      |viewLengths| >= 1
    }

    constructor (colour: ColourSpace, cols: nat, rows: nat, viewLengths: seq<nat>, manageData: bool)
      ensures this.colour == colour && this.cols == cols && this.rows == rows
      ensures this.viewLengths == viewLengths && this.manageData == manageData
      ensures !deleted
    {
      this.colour := colour;
      this.cols := cols;
      this.rows := rows;
      this.viewLengths := viewLengths;
      this.manageData := manageData;
      deleted := false;
    }
  }

  /** The sum of the view lengths: the bytes of all views together. */
  function Sum(v: seq<nat>): nat
  {
    if v == [] then 0 else v[0] + Sum(v[1..])
  }

  /** When every view has the length of the first, the first view's length
      times the number of views is the byte count of all views. */
  lemma {:induction false} UniformViewsTotal(v: seq<nat>)
    requires |v| >= 1
    requires forall i :: 0 <= i < |v| ==> v[i] == v[0]
    ensures v[0] * |v| == Sum(v)
  {
    if |v| > 1 {
      var w := v[1..];
      assert w[0] == v[1] == v[0];
      assert forall i :: 0 <= i < |w| ==> w[i] == v[i + 1];
      UniformViewsTotal(w);
      assert v[0] * |v| == v[0] + v[0] * |w|;
    } else {
      assert v[1..] == [];
    }
  }
}
