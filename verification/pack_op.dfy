/** Shape and axis logic of the XLA `Pack` kernel: all inputs must share one
    shape, the axis may count from the end, and each input gains a size-1
    dim at the axis before the inputs are concatenated along it. */
module PackOp {
  import opened Wrappers

  /** The kernel's InvalidArgument errors. */
  datatype PackError =
    | ShapeMismatch(index: nat)
    | AxisOutOfRange(axis: int, lo: int, hi: int)

  /** The shape of each reshaped input, the output shape, and the
      normalised axis. */
  datatype Packed = Packed(childShape: seq<int>, outShape: seq<int>, axis: nat)

  /** `shape` with a dim of `size` inserted before position `axis`. */
  function InsertDim(shape: seq<int>, axis: nat, size: int): (r: seq<int>)
    requires axis <= |shape|
    ensures |r| == |shape| + 1 && r[axis] == size
    ensures forall k :: 0 <= k < axis ==> r[k] == shape[k]
    ensures forall k :: axis < k < |r| ==> r[k] == shape[k - 1]
  {
    shape[..axis] + [size] + shape[axis..]
  }

  /** `shape` without the dim at `axis`. */
  function RemoveDim(shape: seq<int>, axis: nat): (r: seq<int>)
    requires axis < |shape|
    ensures |r| == |shape| - 1
  {
    shape[..axis] + shape[axis + 1..]
  }

  /** Removing the inserted dim gives the original shape back. */
  lemma RemoveInserted(shape: seq<int>, axis: nat, size: int)
    requires axis <= |shape|
    ensures RemoveDim(InsertDim(shape, axis, size), axis) == shape
  {
    var r := InsertDim(shape, axis, size);
    assert r[..axis] == shape[..axis];
    assert r[axis + 1..] == shape[axis..];
    assert shape[..axis] + shape[axis..] == shape;
  }

  /** The index of the first input whose shape differs from input 0's, if any. */
  function FirstMismatch(shapes: seq<seq<int>>, i: nat): (r: Option<nat>)
    requires |shapes| >= 1
    ensures r.None? ==> forall j :: i <= j < |shapes| ==> shapes[j] == shapes[0]
    ensures r.Some? ==> (i <= r.value < |shapes| && shapes[r.value] != shapes[0]
                         && forall j :: i <= j < r.value ==> shapes[j] == shapes[0])
    decreases |shapes| - i
  {
    if i >= |shapes| then None
    else if shapes[i] != shapes[0] then Some(i)
    else FirstMismatch(shapes, i + 1)
  }

  /** A negative axis counts from the end of the expanded rank. */
  function NormalizeAxis(axis: int, expanded: int): int {
    if axis < 0 then axis + expanded else axis
  }

  /** `PackOp::Compile`: equal shapes and an axis in `[-(r+1), r+1)`. The
      output has the inputs' shape with a dim of the input count at the
      axis. The kernel's arity guard (`num >= 0`) admits an empty list and
      then reads input 0's shape, so at least one input is required here;
      the op's arity attribute provides it. */
  function Pack(shapes: seq<seq<int>>, axisAttr: int): (res: Result<Packed, PackError>)
    requires |shapes| >= 1
    ensures res.Ok? <==> (
      && (forall j :: 0 <= j < |shapes| ==> shapes[j] == shapes[0])
      && -(|shapes[0]| + 1) <= axisAttr < |shapes[0]| + 1)
    ensures res.Err? && res.error.ShapeMismatch? ==> var i := res.error.index;
      && 1 <= i < |shapes| && shapes[i] != shapes[0]
      && forall j :: 0 <= j < i ==> shapes[j] == shapes[0]
    ensures res.Err? && res.error.AxisOutOfRange? ==> (
      && res.error.axis == axisAttr
      && res.error.lo == -(|shapes[0]| + 1) && res.error.hi == |shapes[0]| + 1)
    ensures res.Ok? ==> var p := res.value;
      && p.axis == NormalizeAxis(axisAttr, |shapes[0]| + 1)
      && p.childShape == InsertDim(shapes[0], p.axis, 1)
      && p.outShape == InsertDim(shapes[0], p.axis, |shapes|)
  {
    match FirstMismatch(shapes, 1)
      case Some(i) => Err(ShapeMismatch(i))
      case None =>
        var expanded := |shapes[0]| + 1;
        var axis := NormalizeAxis(axisAttr, expanded);
        if !(0 <= axis < expanded) then Err(AxisOutOfRange(axisAttr, -expanded, expanded))
        else
          var child := InsertDim(shapes[0], axis, 1);
          Ok(Packed(child, ConcatInDim(child, |shapes|, axis), axis))
  }

  /** The shape of `n` copies of `child` concatenated along `axis`. */
  function ConcatInDim(child: seq<int>, n: nat, axis: nat): seq<int>
    requires axis < |child|
  {
    child[axis := child[axis] * n]
  }

  /** Each packed input is recovered by taking one slice at the axis: the
      output without the axis dim is the common input shape, and the axis
      dim counts the inputs. */
  lemma PackedSlicesAreInputs(shapes: seq<seq<int>>, axisAttr: int)
    requires |shapes| >= 1 && Pack(shapes, axisAttr).Ok?
    ensures var p := Pack(shapes, axisAttr).value;
      && |p.outShape| == |shapes[0]| + 1
      && p.outShape[p.axis] == |shapes|
      && forall j :: 0 <= j < |shapes| ==> RemoveDim(p.outShape, p.axis) == shapes[j]
  {
    var p := Pack(shapes, axisAttr).value;
    RemoveInserted(shapes[0], p.axis, |shapes|);
  }
}
