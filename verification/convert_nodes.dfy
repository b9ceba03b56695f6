/** Helpers of the TensorRT graph converter: data-type tables, shape sizes,
    SAME padding, the broadcast rule of binary constant folding, output
    naming in `Converter::convert_node`, and the argument validators of the
    Mean (reduce) and Pad converters. Element values of floating-point
    weights and every TensorRT network-building call are outside the model;
    a converted tensor is represented by its dimensions. */
module ConvertNodes {
  import opened Wrappers
  import opened CppInt
  import Decimal
  import TensorId

  // ---------------------------------------------------------------------------
  // Data types
  // ---------------------------------------------------------------------------

  /** TensorFlow data types the converter distinguishes. */
  datatype TfType = DtFloat | DtInt8 | DtHalf | DtInt32 | DtOther

  /** TensorRT data types. */
  datatype TrtType = KFloat | KInt8 | KHalf | KInt32

  /** Status codes the converter returns; `Abort` stands for a failed CHECK
      and `OutOfRange` for the exception `map::at` throws on a missing key. */
  datatype Error =
    | InvalidArgument(msg: string)
    | Unimplemented(msg: string)
    | AlreadyExists(msg: string)
    | OutOfRange(msg: string)
    | Abort(msg: string)

  /** Element size in bytes of a TensorRT type; -1 when unknown. */
  function TrtTypeSize(t: TrtType): (r: int)
    ensures r == -1 <==> t == KInt32
  {
    match t
    case KFloat => 4
    case KInt8 => 1
    case KHalf => 2
    case KInt32 => -1
  }

  /** Element size in bytes of a TensorFlow type; -1 when unknown. */
  function TfTypeSize(t: TfType): (r: int)
    ensures r == -1 <==> t == DtOther
    ensures r != -1 ==> r in {1, 2, 4}
  {
    match t
    case DtFloat => 4
    case DtInt8 => 1
    case DtHalf => 2
    case DtInt32 => 4
    case DtOther => -1
  }

  /** `convert_dtype`: only float, int8 and half have a TensorRT counterpart,
      and the counterpart has the same element size. int32 has a size but no
      counterpart. */
  function ConvertDtype(t: TfType): (r: Result<TrtType, Error>)
    ensures r.Ok? <==> t in {DtFloat, DtInt8, DtHalf}
    ensures r.Ok? ==> TrtTypeSize(r.value) == TfTypeSize(t)
    ensures r.Err? ==> r.error == InvalidArgument("Unsupported data type")
  {
    match t
    case DtFloat => Ok(KFloat)
    case DtInt8 => Ok(KInt8)
    case DtHalf => Ok(KHalf)
    case _ => Err(InvalidArgument("Unsupported data type"))
  }

  // ---------------------------------------------------------------------------
  // Shape sizes
  // ---------------------------------------------------------------------------

  /** The number of elements of a shape: the product of its dims. */
  function Product(dims: seq<int>): (r: int)
    ensures (forall i :: 0 <= i < |dims| ==> dims[i] >= 0) ==> r >= 0
  {
    if |dims| == 0 then 1 else Product(dims[..|dims| - 1]) * dims[|dims| - 1]
  }

  /** `get_shape_size` (and `TRT_ShapedWeights::count`, the same loop):
      the running product over the dims. */
  method GetShapeSize(dims: seq<int>) returns (count: int)
    ensures count == Product(dims)
  {
    count := 1;
    var d := 0;
    while d < |dims|
      invariant 0 <= d <= |dims|
      invariant count == Product(dims[..d])
    {
      assert dims[..d + 1][..d] == dims[..d];
      count := count * dims[d];
      d := d + 1;
    }
    assert dims[..|dims|] == dims;
  }

  /** Sizes multiply over concatenated shapes. */
  lemma {:induction false} ProductConcat(a: seq<int>, b: seq<int>)
    ensures Product(a + b) == Product(a) * Product(b)
    decreases |b|
  {
    if |b| == 0 {
      assert a + b == a;
    } else {
      var b' := b[..|b| - 1];
      assert (a + b)[..|a + b| - 1] == a + b';
      ProductConcat(a, b');
      calc {
        Product(a + b);
        Product(a + b') * b[|b| - 1];
        Product(a) * Product(b') * b[|b| - 1];
        Product(a) * Product(b);
      }
    }
  }

  /** A shape of non-negative dims is empty exactly when one dim is 0. */
  lemma {:induction false} ProductZero(dims: seq<int>)
    requires forall i :: 0 <= i < |dims| ==> dims[i] >= 0
    ensures Product(dims) == 0 <==> exists i :: 0 <= i < |dims| && dims[i] == 0
  {
    if |dims| > 0 {
      var init := dims[..|dims| - 1];
      ProductZero(init);
      var last := dims[|dims| - 1];
      assert Product(dims) == Product(init) * last;
      if Product(init) == 0 {
        var i :| 0 <= i < |init| && init[i] == 0;
        assert dims[i] == 0;
      } else if last != 0 {
        assert Product(init) * last != 0;
        forall i | 0 <= i < |dims| ensures dims[i] != 0 {
          if i < |init| { assert init[i] == dims[i]; }
        }
      }
    }
  }

  /** A shape of non-negative dims holds one element only if every dim is 1. */
  lemma {:induction false} ProductOne(dims: seq<int>)
    requires forall i :: 0 <= i < |dims| ==> dims[i] >= 0
    requires Product(dims) == 1
    ensures forall i :: 0 <= i < |dims| ==> dims[i] == 1
  {
    if |dims| > 0 {
      var init := dims[..|dims| - 1];
      var last := dims[|dims| - 1];
      assert Product(init) * last == 1;
      assert Product(init) >= 0;
      assert Product(init) == 1 && last == 1;
      ProductOne(init);
      forall i | 0 <= i < |dims| ensures dims[i] == 1 {
        if i < |init| { assert init[i] == dims[i]; }
      }
    }
  }

  // ---------------------------------------------------------------------------
  // SAME padding
  // ---------------------------------------------------------------------------

  /** Total SAME padding for one spatial dim: enough for the last window
      that starts inside the input, never negative. */
  function PadAmount(input: int, stride: int, kernel: int): (p: int)
    requires stride != 0
    ensures p >= 0
    ensures p > 0 ==> p == TruncDiv(input - 1, stride) * stride + kernel - input
  {
    var p := TruncDiv(input - 1, stride) * stride + kernel - input;
    if p > 0 then p else 0
  }

  /** The total padding split with the extra unit on the right. */
  function SplitPad(p: nat): (r: (int, int))
    ensures r.0 >= 0 && r.0 + r.1 == p && 0 <= r.1 - r.0 <= 1
  {
    (p / 2, p - p / 2)
  }

  /** `createSamePadding`: a (left, right) pair per input dim; the stride
      and input ranks must agree (a CHECK). */
  function CreateSamePadding(stride: seq<int>, kernel: seq<int>, inputDims: seq<int>): (r: Result<seq<(int, int)>, Error>)
    requires |kernel| >= |inputDims|
    requires forall i :: 0 <= i < |stride| ==> stride[i] != 0
    ensures r.Ok? <==> |stride| == |inputDims|
    ensures r.Ok? ==> |r.value| == |inputDims|
    ensures r.Ok? ==> forall i :: 0 <= i < |inputDims| ==>
      && r.value[i].0 >= 0
      && r.value[i].0 + r.value[i].1 == PadAmount(inputDims[i], stride[i], kernel[i])
      && 0 <= r.value[i].1 - r.value[i].0 <= 1
  {
    if |stride| != |inputDims| then Err(Abort("stride.nbDims == inputDims.size()"))
    else Ok(seq(|inputDims|, i requires 0 <= i < |inputDims| => SplitPad(PadAmount(inputDims[i], stride[i], kernel[i]))))
  }

  /** SAME padding keeps the number of windows at ceil(input / stride):
      sliding a window of `kernel` with step `stride` over the padded input
      gives exactly that many positions. */
  lemma SamePaddingWindows(input: int, stride: int, kernel: int)
    requires input >= 1 && stride >= 1 && kernel >= 1
    ensures (input + PadAmount(input, stride, kernel) - kernel) / stride + 1 == (input + stride - 1) / stride
  {
    var q := (input - 1) / stride;
    var m := (input - 1) % stride;
    assert TruncDiv(input - 1, stride) == q;
    DivUnique(input + stride - 1, stride, q + 1, m);
    var p := PadAmount(input, stride, kernel);
    if p > 0 {
      assert input + p - kernel == q * stride;
      DivUnique(q * stride, stride, q, 0);
    } else {
      var rest := input - kernel - q * stride;
      assert 0 <= rest < stride;
      DivUnique(input - kernel, stride, q, rest);
    }
  }

  // ---------------------------------------------------------------------------
  // Weights and binary constant folding
  // ---------------------------------------------------------------------------

  /** Constant weights: type, shape and the integer view of the buffer (the
      only view the validators read). */
  datatype Weights = Weights(dtype: TfType, shape: seq<int>, values: seq<int>)

  predicate ShapeOk(shape: seq<int>) {
    forall i :: 0 <= i < |shape| ==> shape[i] >= 0
  }

  function Count(w: Weights): int {
    Product(w.shape)
  }

  /** Buffer element `k`; a read past the end gives 0. */
  function At(values: seq<int>, k: int): int {
    if 0 <= k < |values| then values[k] else 0
  }

  function Max(a: int, b: int): int {
    if a >= b then a else b
  }

  /** The output shape of `ConstantFoldBinary`: ranks must agree; per dim,
      equal sizes are kept and a size of 1 on either side gives the larger
      size. */
  function BroadcastShape(l: seq<int>, r: seq<int>, op: string): (res: Result<seq<int>, Error>)
    ensures |l| != |r| ==> res == Err(Unimplemented("Binary op implicit broadcast not supported: " + op))
    ensures res.Ok? <==> |l| == |r| && forall i :: 0 <= i < |l| ==> l[i] == r[i] || l[i] == 1 || r[i] == 1
    ensures res.Ok? ==> |res.value| == |l| && forall i :: 0 <= i < |l| ==> res.value[i] == Max(l[i], r[i])
    ensures res.Err? && |l| == |r| ==> res.error == Unimplemented("Binary op with incompatible shape at, " + op)
  {
    if |l| != |r| then Err(Unimplemented("Binary op implicit broadcast not supported: " + op))
    else if exists i :: 0 <= i < |l| && l[i] != r[i] && l[i] != 1 && r[i] != 1 then
      Err(Unimplemented("Binary op with incompatible shape at, " + op))
    else Ok(seq(|l|, i requires 0 <= i < |l| => if l[i] == r[i] then l[i] else Max(l[i], r[i])))
  }

  /** `BinaryCompute` without the element values: the number of output
      elements the elementwise transform writes. Equal counts are combined
      pointwise; otherwise one side must hold a single element. */
  function BinaryCompute(l: Weights, r: Weights, out: TfType): (res: Result<int, Error>)
    ensures l.dtype != out || r.dtype != out ==> res.Err? && res.error.Abort?
    ensures res.Ok? <==> (l.dtype == out && r.dtype == out && l.dtype == DtFloat
                         && (Count(l) == Count(r) || Count(l) == 1 || Count(r) == 1))
    ensures res.Ok? && Count(l) == Count(r) ==> res.value == Count(l)
    ensures res.Ok? && Count(l) != Count(r) && Count(l) == 1 ==> res.value == Count(r)
    ensures res.Ok? && Count(l) != Count(r) && Count(r) == 1 ==> res.value == Count(l)
  {
    if l.dtype != out || r.dtype != out then Err(Abort("iweights.type_ == oweights->type_"))
    else if l.dtype != DtFloat then Err(Unimplemented("data type not supported: "))
    else if Count(l) != Count(r) then
      if Count(l) == 1 then Ok(Count(r))
      else if Count(r) == 1 then Ok(Count(l))
      else Err(Unimplemented("Binary op with non-rankZero broadcast not supported"))
    else Ok(Count(l))
  }

  /** A folded constant: the output weights' type and shape, and how many of
      its elements the computation wrote. */
  datatype Folded = Folded(dtype: TfType, shape: seq<int>, written: int)

  function IsFoldableBinaryOp(op: string): bool {
    op in {"Sub", "Mul", "Add"}
  }

  /** `ConstantFoldBinary` as written: type check (a CHECK), output shape,
      operator check, then `BinaryCompute`. */
  function ConstantFoldBinary(op: string, l: Weights, r: Weights, attrT: TfType): (res: Result<Folded, Error>)
    ensures l.dtype != r.dtype ==> res.Err? && res.error.Abort?
    ensures res.Ok? <==> (l.dtype == r.dtype && BroadcastShape(l.shape, r.shape, op).Ok?
                         && IsFoldableBinaryOp(op) && BinaryCompute(l, r, attrT).Ok?)
    ensures res.Ok? ==> (res.value.dtype == attrT && res.value.shape == BroadcastShape(l.shape, r.shape, op).value
                         && res.value.written == BinaryCompute(l, r, attrT).value)
  {
    if l.dtype != r.dtype then Err(Abort("weights_input_l.type_ == weights_input_r.type_"))
    else match BroadcastShape(l.shape, r.shape, op)
      case Err(e) => Err(e)
      case Ok(shape) =>
        if !IsFoldableBinaryOp(op) then Err(Unimplemented("Binary op not supported: " + op))
        else match BinaryCompute(l, r, attrT)
          case Err(e) => Err(e)
          case Ok(n) => Ok(Folded(attrT, shape, n))
  }

  /** Two single-dim operands [1, 3] and [3, 1]. */
  function TransposedLeft(): Weights { Weights(DtFloat, [1, 3], []) }
  function TransposedRight(): Weights { Weights(DtFloat, [3, 1], []) }

  /** As written, [1, 3] + [3, 1] folds to a [3, 3] constant of which only
      3 elements are computed: equal counts take the pointwise branch
      although the shapes differ. */
  lemma TransposedOperandsUnderfill()
    ensures var f := ConstantFoldBinary("Add", TransposedLeft(), TransposedRight(), DtFloat);
      f.Ok? && f.value.shape == [3, 3] && f.value.written == 3 && Product(f.value.shape) == 9
  {
    var l, r := TransposedLeft(), TransposedRight();
    assert [1, 3][..1] == [1] && [3, 1][..1] == [3];
    assert [1][..0] == [] && [3][..0] == [];
    assert Count(l) == 3 && Count(r) == 3;
    var b := BroadcastShape(l.shape, r.shape, "Add");
    assert b.Ok?;
    assert b.value == [3, 3];
    assert Product([3, 3]) == 9;
  }

  /** As written, a single element broadcast against an empty dim gives a
      one-element output, because the larger size wins, but writes none. */
  lemma EmptyDimBroadcastUnderfill()
    ensures var f := ConstantFoldBinary("Mul", Weights(DtFloat, [1], []), Weights(DtFloat, [0], []), DtFloat);
      f.Ok? && f.value.shape == [1] && f.value.written == 0
  {
    var l, r := Weights(DtFloat, [1], []), Weights(DtFloat, [0], []);
    assert Count(l) == 1 && Count(r) == 0;
    assert BroadcastShape(l.shape, r.shape, "Mul").value == [1];
  }

  /** The broadcast rule as intended: a size of 1 takes the other size. */
  function BroadcastShapeFixed(l: seq<int>, r: seq<int>, op: string): (res: Result<seq<int>, Error>)
    ensures res.Ok? <==> |l| == |r| && forall i :: 0 <= i < |l| ==> l[i] == r[i] || l[i] == 1 || r[i] == 1
    ensures res.Ok? ==> |res.value| == |l| && forall i :: 0 <= i < |l| ==>
      res.value[i] == (if l[i] == 1 then r[i] else l[i])
  {
    if |l| != |r| then Err(Unimplemented("Binary op implicit broadcast not supported: " + op))
    else if exists i :: 0 <= i < |l| && l[i] != r[i] && l[i] != 1 && r[i] != 1 then
      Err(Unimplemented("Binary op with incompatible shape at, " + op))
    else Ok(seq(|l|, i requires 0 <= i < |l| => if l[i] == 1 then r[i] else l[i]))
  }

  /** Binary folding as intended: the intended broadcast rule, and the
      pointwise branch only for operands of the same shape; any other
      broadcast needs a single-element side. */
  function ConstantFoldBinaryFixed(op: string, l: Weights, r: Weights, attrT: TfType): (res: Result<Folded, Error>)
    ensures res.Ok? ==> IsFoldableBinaryOp(op) && l.dtype == r.dtype == attrT == DtFloat
    ensures res.Ok? ==> l.shape == r.shape || Count(l) == 1 || Count(r) == 1
  {
    if l.dtype != r.dtype then Err(Abort("weights_input_l.type_ == weights_input_r.type_"))
    else match BroadcastShapeFixed(l.shape, r.shape, op)
      case Err(e) => Err(e)
      case Ok(shape) =>
        if !IsFoldableBinaryOp(op) then Err(Unimplemented("Binary op not supported: " + op))
        else if l.shape != r.shape && Count(l) != 1 && Count(r) != 1 then
          Err(Unimplemented("Binary op with non-rankZero broadcast not supported"))
        else match BinaryCompute(l, r, attrT)
          case Err(e) => Err(e)
          case Ok(n) => Ok(Folded(attrT, shape, n))
  }

  /** With the intended rules every element of the folded constant is
      computed. */
  lemma FixedFoldFillsOutput(op: string, l: Weights, r: Weights, attrT: TfType)
    requires ShapeOk(l.shape) && ShapeOk(r.shape)
    requires ConstantFoldBinaryFixed(op, l, r, attrT).Ok?
    ensures var f := ConstantFoldBinaryFixed(op, l, r, attrT).value;
      f.written == Product(f.shape)
  {
    var f := ConstantFoldBinaryFixed(op, l, r, attrT).value;
    if l.shape == r.shape {
      assert f.shape == l.shape;
    } else if Count(l) == 1 {
      ProductOne(l.shape);
      assert f.shape == r.shape;
    } else {
      ProductOne(r.shape);
      assert f.shape == l.shape;
    }
  }

  // ---------------------------------------------------------------------------
  // Converter state and output naming
  // ---------------------------------------------------------------------------

  /** A converted value: a network tensor (by its dims, without the implicit
      batch dim) or constant weights. */
  datatype Operand = ITensor(dims: seq<int>) | IWeights(w: Weights)

  /** The converter's table from tensor names to converted values. */
  type TensorMap = map<string, Operand>

  /** A node as the converter sees it: `typeAttr` is the one type attribute
      the modelled converters read (`T`, `Tidx` or `Tpaddings`). */
  datatype NodeDef = NodeDef(name: string, op: string, inputs: seq<string>, typeAttr: TfType)

  /** The ops `register_op_converters` installs. */
  const RegisteredOps: set<string> := {
    "Placeholder", "Conv2D", "Relu", "MaxPool", "BiasAdd", "Const", "Identity",
    "Add", "Mul", "Sub", "Rsqrt", "Mean", "Pad"
  }

  /** `get_inputs`: every input name is looked up with `at`, which throws on
      a missing name. */
  function GetInputs(t: TensorMap, names: seq<string>): (r: Result<seq<Operand>, Error>)
    ensures r.Ok? <==> forall i :: 0 <= i < |names| ==> names[i] in t
    ensures r.Ok? ==> |r.value| == |names| && forall i :: 0 <= i < |names| ==> r.value[i] == t[names[i]]
  {
    if forall i :: 0 <= i < |names| ==> names[i] in t then
      Ok(seq(|names|, i requires 0 <= i < |names| => t[names[i]]))
    else Err(OutOfRange("map::at"))
  }

  /** Output `i` of a node is named after the node, with `:i` for i > 0. */
  function OutputName(name: string, i: nat): string {
    if i == 0 then name else name + ":" + Decimal.NatToString(i)
  }

  /** The output names of one node are pairwise distinct. */
  lemma OutputNamesDistinct(name: string, i: nat, j: nat)
    requires i != j
    ensures OutputName(name, i) != OutputName(name, j)
  {
    if i > 0 && j > 0 && OutputName(name, i) == OutputName(name, j) {
      assert OutputName(name, i)[|name| + 1..] == Decimal.NatToString(i);
      assert OutputName(name, j)[|name| + 1..] == Decimal.NatToString(j);
      Decimal.NatToStringInjective(i, j);
    }
  }

  /** A non-zero output's name parses back to the node and the output index. */
  lemma OutputNameParses(name: string, i: nat)
    requires |name| >= 1 && i > 0
    ensures TensorId.ParseTensorName(OutputName(name, i)) == TensorId.TensorId(name, i)
  {
    TensorId.ParseFormatted(name, i);
  }

  /** The converter state after a conversion step, and its status. The table
      keeps what was inserted before a failure. */
  datatype Converted = Converted(status: Outcome<Error>, tensors: TensorMap)

  /** The insertion loop of `convert_node` from output `i` on. */
  function InsertOutputs(t: TensorMap, name: string, op: string, outs: seq<Operand>, i: nat): Converted
    decreases |outs| - i
  {
    if i >= |outs| then Converted(Pass, t)
    else
      var n := OutputName(name, i);
      if n in t then Converted(Fail(AlreadyExists("output tensor already exists for op: " + op)), t)
      else InsertOutputs(t[n := outs[i]], name, op, outs, i + 1)
  }

  /** Insertion succeeds exactly when none of the remaining output names is
      taken; it then adds those names, each bound to its output, and leaves
      every other entry alone. */
  lemma InsertOutputsSpec(t: TensorMap, name: string, op: string, outs: seq<Operand>, i: nat)
    requires i <= |outs|
    ensures var c := InsertOutputs(t, name, op, outs, i);
      && (c.status.Pass? <==> forall k :: i <= k < |outs| ==> OutputName(name, k) !in t)
      && (c.status.Fail? ==> c.status.error == AlreadyExists("output tensor already exists for op: " + op))
      && (c.status.Pass? ==> forall key :: key in c.tensors <==> key in t || exists k :: i <= k < |outs| && key == OutputName(name, k))
      && (c.status.Pass? ==> forall k :: i <= k < |outs| ==> c.tensors[OutputName(name, k)] == outs[k])
      && (forall key :: key in t ==> key in c.tensors && c.tensors[key] == t[key])
  {
    InsertOutputsStatus(t, name, op, outs, i);
    InsertOutputsTable(t, name, op, outs, i);
  }

  /** Insertion fails, with the duplicate-output error, exactly when one of
      the remaining output names is taken; existing entries are kept. */
  lemma {:induction false} InsertOutputsStatus(t: TensorMap, name: string, op: string, outs: seq<Operand>, i: nat)
    requires i <= |outs|
    ensures var c := InsertOutputs(t, name, op, outs, i);
      && (c.status.Pass? <==> forall k :: i <= k < |outs| ==> OutputName(name, k) !in t)
      && (c.status.Fail? ==> c.status.error == AlreadyExists("output tensor already exists for op: " + op))
      && (forall key :: key in t ==> key in c.tensors && c.tensors[key] == t[key])
    decreases |outs| - i
  {
    if i < |outs| {
      var n := OutputName(name, i);
      if n !in t {
        var t' := t[n := outs[i]];
        InsertOutputsStatus(t', name, op, outs, i + 1);
        forall k | i + 1 <= k < |outs| ensures (OutputName(name, k) in t') == (OutputName(name, k) in t) {
          OutputNamesDistinct(name, i, k);
        }
      }
    }
  }

  /** A successful insertion adds exactly the remaining output names, each
      bound to its output. */
  lemma InsertOutputsTable(t: TensorMap, name: string, op: string, outs: seq<Operand>, i: nat)
    requires i <= |outs|
    ensures var c := InsertOutputs(t, name, op, outs, i);
      && (c.status.Pass? ==> forall key :: key in c.tensors <==> key in t || exists k :: i <= k < |outs| && key == OutputName(name, k))
      && (c.status.Pass? ==> forall k :: i <= k < |outs| ==> c.tensors[OutputName(name, k)] == outs[k])
  {
    InsertOutputsKeys(t, name, op, outs, i);
    InsertOutputsValues(t, name, op, outs, i);
  }

  /** A successful insertion adds exactly the remaining output names. */
  lemma {:induction false} InsertOutputsKeys(t: TensorMap, name: string, op: string, outs: seq<Operand>, i: nat)
    requires i <= |outs|
    ensures var c := InsertOutputs(t, name, op, outs, i);
      c.status.Pass? ==> forall key :: key in c.tensors <==> key in t || exists k :: i <= k < |outs| && key == OutputName(name, k)
    decreases |outs| - i
  {
    if i < |outs| {
      var n := OutputName(name, i);
      if n !in t {
        var t' := t[n := outs[i]];
        InsertOutputsKeys(t', name, op, outs, i + 1);
        var c := InsertOutputs(t', name, op, outs, i + 1);
        assert InsertOutputs(t, name, op, outs, i) == c;
        if c.status.Pass? {
          forall key | key in t || exists k :: i <= k < |outs| && key == OutputName(name, k)
            ensures key in c.tensors
          {
            if key !in t && key != n {
              var k :| i <= k < |outs| && key == OutputName(name, k);
              assert i + 1 <= k;
            }
          }
          forall key | key in c.tensors
            ensures key in t || exists k :: i <= k < |outs| && key == OutputName(name, k)
          {
            if key !in t' {
              var k :| i + 1 <= k < |outs| && key == OutputName(name, k);
              assert i <= k;
            } else if key == n {
              assert i <= i < |outs| && key == OutputName(name, i);
            }
          }
        }
      }
    }
  }

  /** A successful insertion binds each remaining output name to its output. */
  lemma {:induction false} InsertOutputsValues(t: TensorMap, name: string, op: string, outs: seq<Operand>, i: nat)
    requires i <= |outs|
    ensures var c := InsertOutputs(t, name, op, outs, i);
      c.status.Pass? ==> forall k :: i <= k < |outs| ==> OutputName(name, k) in c.tensors && c.tensors[OutputName(name, k)] == outs[k]
    decreases |outs| - i
  {
    if i < |outs| {
      var n := OutputName(name, i);
      if n !in t {
        var t' := t[n := outs[i]];
        InsertOutputsValues(t', name, op, outs, i + 1);
        InsertOutputsStatus(t', name, op, outs, i + 1);
        var c := InsertOutputs(t', name, op, outs, i + 1);
        if c.status.Pass? {
          forall k | i <= k < |outs|
            ensures OutputName(name, k) in c.tensors && c.tensors[OutputName(name, k)] == outs[k]
          {
            if k == i {
              assert n in t';
            }
          }
        }
      }
    }
  }

  /** `Converter::convert_node`: fetch the inputs, find the registered
      converter, run it (`convert` stands for the registry entry), then
      record every output under its name. */
  function ConvertNode(t: TensorMap, node: NodeDef, convert: (NodeDef, seq<Operand>) -> Result<seq<Operand>, Error>): Converted {
    match GetInputs(t, node.inputs)
    case Err(e) => Converted(Fail(e), t)
    case Ok(inputs) =>
      if node.op !in RegisteredOps then
        Converted(Fail(Unimplemented("no converter registered for op: " + node.op)), t)
      else match convert(node, inputs)
        case Err(e) => Converted(Fail(e), t)
        case Ok(outs) => InsertOutputs(t, node.name, node.op, outs, 0)
  }

  /** A conversion succeeds exactly when the inputs are present, the op is
      registered, its converter succeeds, and no output name is taken; the
      table then gains exactly the output names and keeps its old entries. */
  lemma ConvertNodeSpec(t: TensorMap, node: NodeDef, convert: (NodeDef, seq<Operand>) -> Result<seq<Operand>, Error>)
    ensures var c := ConvertNode(t, node, convert);
      var ins := GetInputs(t, node.inputs);
      && (c.status.Pass? <==>
           && ins.Ok? && node.op in RegisteredOps && convert(node, ins.value).Ok?
           && forall k :: 0 <= k < |convert(node, ins.value).value| ==> OutputName(node.name, k) !in t)
      && (!ins.Ok? ==> c == Converted(Fail(OutOfRange("map::at")), t))
      && (ins.Ok? && node.op !in RegisteredOps ==>
           c == Converted(Fail(Unimplemented("no converter registered for op: " + node.op)), t))
      && (c.status.Pass? ==> var outs := convert(node, ins.value).value;
           && (forall key :: key in c.tensors <==> key in t || exists k :: 0 <= k < |outs| && key == OutputName(node.name, k))
           && (forall k :: 0 <= k < |outs| ==> c.tensors[OutputName(node.name, k)] == outs[k]))
      && (forall key :: key in t ==> key in c.tensors && c.tensors[key] == t[key])
  {
    var ins := GetInputs(t, node.inputs);
    if ins.Ok? && node.op in RegisteredOps && convert(node, ins.value).Ok? {
      InsertOutputsSpec(t, node.name, node.op, convert(node, ins.value).value, 0);
    }
  }

  // ---------------------------------------------------------------------------
  // Reduce (Mean)
  // ---------------------------------------------------------------------------

  /** What the Mean converter builds: the axis permutation applied around the
      pooling layer (when the channel axis is reduced), the pooling window,
      and the outputs it reports. */
  datatype ReducePlan = ReducePlan(transposed: bool, permutation: seq<int>, kernel: (int, int), outputs: seq<Operand>)

  /** The reduction indices the converter reads: the first `count()` ints of
      the index buffer. */
  function ReduceIndices(w: Weights): (r: seq<int>)
    ensures |r| == (if Count(w) > 0 then Count(w) else 0)
  {
    var n := if Count(w) > 0 then Count(w) else 0;
    seq(n, i requires 0 <= i < n => At(w.values, i))
  }

  /** The axis swapped with the channel axis: the first reduced spatial axis
      of the 4-d tensor, or the channel axis itself when there is none. */
  function PermutedAxis(idx: seq<int>): (r: int)
    ensures r in {1, 2, 3}
    ensures r == 2 <==> 2 in idx
    ensures r == 3 ==> 3 in idx && 2 !in idx
  {
    if 2 in idx then 2 else if 3 in idx then 3 else 1
  }

  /** The identity order on 4 axes with axes 1 and `p` exchanged. */
  function SwapWithChannel(p: int): (r: seq<int>)
    requires p in {1, 2, 3}
    ensures |r| == 4 && r[1] == p && r[p] == 1
    ensures forall k :: 0 <= k < 4 && k != 1 && k != p ==> r[k] == k
  {
    seq(4, k requires 0 <= k < 4 => if k == 1 then p else if k == p then 1 else k)
  }

  /** The permutation undoes itself, so the transpose after pooling restores
      the original axis order. */
  lemma SwapWithChannelInvolution(p: int)
    requires p in {1, 2, 3}
    ensures var s := SwapWithChannel(p); forall k :: 0 <= k < 4 ==> 0 <= s[k] < 4 && s[s[k]] == k
  {
  }

  /** `ConvertReduce` as written. The output tensor is built but never
      reported. */
  function ConvertReduce(node: NodeDef, inputs: seq<Operand>): (r: Result<ReducePlan, Error>)
    ensures r.Ok? <==> (
      && |inputs| == 2 && inputs[0].ITensor? && inputs[1].IWeights?
      && node.typeAttr == DtInt32 && |inputs[0].dims| == 3
      && Count(inputs[1].w) <= 2 && 0 !in ReduceIndices(inputs[1].w) && node.op == "Mean")
    ensures !(|inputs| == 2 && inputs[0].ITensor? && inputs[1].IWeights?) ==>
      r == Err(InvalidArgument("Input expects tensor and weights, at" + node.name))
    ensures r.Ok? ==> r.value.outputs == []
    ensures r.Ok? ==> (r.value.transposed <==> 1 in ReduceIndices(inputs[1].w))
    ensures r.Ok? && r.value.transposed ==> r.value.permutation == SwapWithChannel(PermutedAxis(ReduceIndices(inputs[1].w)))
    ensures r.Ok? ==> var idx := ReduceIndices(inputs[1].w); var dims := inputs[0].dims;
      && r.value.kernel.0 == (if 2 in idx then dims[1] else 1)
      && r.value.kernel.1 == (if 3 in idx || (1 in idx && PermutedAxis(idx) == 3) then dims[2] else 1)
  {
    match ReducePlanFor(node, inputs)
    case Err(e) => Err(e)
    case Ok(p) => Ok(p.(outputs := []))
  }

  /** The checks and the layer plan shared by both versions of the Mean
      converter; the plan's outputs hold the pooled tensor. */
  function ReducePlanFor(node: NodeDef, inputs: seq<Operand>): (r: Result<ReducePlan, Error>)
    ensures r.Ok? ==> |r.value.outputs| == 1
  {
    if |inputs| != 2 || !inputs[0].ITensor? || !inputs[1].IWeights? then
      Err(InvalidArgument("Input expects tensor and weights, at" + node.name))
    else
      var dims := inputs[0].dims;
      var nbDims := |dims| + 1;
      var w := inputs[1].w;
      if node.typeAttr != DtInt32 then Err(Unimplemented("Tidx supports only DT_INT32"))
      else if nbDims != 4 then
        Err(InvalidArgument("TRT only support reduce on 4 dimensional tensors, at" + node.name))
      else if Count(w) > 2 then
        Err(InvalidArgument("TRT cannot support reduce on more than 2 dimensions, at" + node.name))
      else
        var idx := ReduceIndices(w);
        if 0 in idx then Err(InvalidArgument("TRT cannot reduce at 0, at" + node.name))
        else
          var transposed := 1 in idx;
          var permuted := if transposed then PermutedAxis(idx) else -1;
          var perm := if transposed then SwapWithChannel(permuted) else [];
          var kernel := (if 2 in idx || permuted == 2 then dims[1] else 1,
                         if 3 in idx || permuted == 3 then dims[2] else 1);
          if node.op != "Mean" then
            Err(Unimplemented("Op not supported " + node.op + " , at " + node.name))
          else
            Ok(ReducePlan(transposed, perm, kernel, [ITensor(PooledDims(dims, kernel))]))
  }

  /** The dims of the pooled tensor (the layer's own shape rule is not part
      of this model; the window is applied with stride 1). */
  function PooledDims(dims: seq<int>, kernel: (int, int)): seq<int>
    requires |dims| == 3
  {
    [dims[0], dims[1] - kernel.0 + 1, dims[2] - kernel.1 + 1]
  }

  /** A Mean node over a 4-d tensor with reduction indices [2, 3]. */
  function MeanNode(): NodeDef { NodeDef("m", "Mean", ["x", "i"], DtInt32) }
  function MeanTable(): TensorMap {
    map["x" := ITensor([3, 8, 8]), "i" := IWeights(Weights(DtInt32, [2], [2, 3]))]
  }

  /** As written, converting a Mean node succeeds but records no tensor
      under the node's name, so any consumer's input lookup fails. */
  lemma ReduceOutputLost()
    ensures var c := ConvertNode(MeanTable(), MeanNode(), ConvertReduceOutputs);
      && c.status.Pass? && "m" !in c.tensors
      && GetInputs(c.tensors, ["m"]).Err?
  {
    var t, node := MeanTable(), MeanNode();
    var ins := GetInputs(t, node.inputs);
    assert ins.Ok? && ins.value == [t["x"], t["i"]];
    var w := Weights(DtInt32, [2], [2, 3]);
    assert [2][..0] == [];
    assert Count(w) == 2;
    assert ReduceIndices(w) == [2, 3];
    assert ConvertReduceOutputs(node, ins.value) == Ok([]);
    ConvertNodeSpec(t, node, ConvertReduceOutputs);
    var c := ConvertNode(t, node, ConvertReduceOutputs);
    assert !(["m"][0] in c.tensors);
  }

  /** The as-written Mean converter as a registry entry. */
  function ConvertReduceOutputs(node: NodeDef, inputs: seq<Operand>): Result<seq<Operand>, Error> {
    match ConvertReduce(node, inputs)
    case Err(e) => Err(e)
    case Ok(p) => Ok(p.outputs)
  }

  /** The Mean converter as intended: it reports the pooled tensor. */
  function ConvertReduceFixed(node: NodeDef, inputs: seq<Operand>): (r: Result<seq<Operand>, Error>)
    ensures r.Ok? <==> ConvertReduce(node, inputs).Ok?
    ensures r.Ok? ==> |r.value| == 1 && r.value[0].ITensor?
  {
    match ReducePlanFor(node, inputs)
    case Err(e) => Err(e)
    case Ok(p) => Ok(p.outputs)
  }

  /** With the intended converter a successful Mean conversion makes the
      node's name resolvable. */
  lemma FixedReduceRecordsOutput(t: TensorMap, node: NodeDef)
    requires ConvertNode(t, node, ConvertReduceFixed).status.Pass?
    ensures node.name in ConvertNode(t, node, ConvertReduceFixed).tensors
  {
    ConvertNodeSpec(t, node, ConvertReduceFixed);
    assert OutputName(node.name, 0) == node.name;
  }

  // ---------------------------------------------------------------------------
  // Pad
  // ---------------------------------------------------------------------------

  /** What the Pad converter builds: the input unchanged, or a padding layer
      on the spatial axes (height, width), wrapped in the transpose that
      exchanges axes 1 and 3 when the channel axis is padded. */
  datatype PadPlan =
    | PadIdentity
    | PadLayer(transposed: bool, h: (int, int), w: (int, int))

  /** The (before, after) amounts requested for dim `d`. */
  function Requested(pads: Weights, d: int): (int, int) {
    (At(pads.values, 2 * d), At(pads.values, 2 * d + 1))
  }

  /** The dims of `[0, n)` with a non-zero requested amount, ascending. */
  function PaddedDims(pads: Weights, n: nat): (r: seq<nat>)
    ensures forall k :: 0 <= k < |r| ==> r[k] < n
    ensures forall k, j :: 0 <= k < j < |r| ==> r[k] < r[j]
    ensures forall d :: 0 <= d < n ==> (d in r <==> Requested(pads, d) != (0, 0))
  {
    if n == 0 then []
    else
      var init := PaddedDims(pads, n - 1);
      if Requested(pads, n - 1) != (0, 0) then init + [n - 1] else init
  }

  /** The spatial amounts the layer receives: each padded dim writes its
      amounts to the height or the width slot its position maps to, later
      dims overwriting earlier ones. */
  function PadSlots(pads: Weights, index: seq<nat>, permuted: seq<int>, i: nat, h: (int, int), w: (int, int)): ((int, int), (int, int))
    requires |index| == |permuted|
    decreases |index| - i
  {
    if i >= |index| then (h, w)
    else
      var amount := Requested(pads, index[i]);
      if permuted[i] == 2 then PadSlots(pads, index, permuted, i + 1, amount, w)
      else if permuted[i] == 3 then PadSlots(pads, index, permuted, i + 1, h, amount)
      else PadSlots(pads, index, permuted, i + 1, h, w)
  }

  /** The padding checks up to and including the batch-dim check. `rankCheck`
      adds the intended check that the tensor is 4-d. */
  function PadChecks(node: NodeDef, inputs: seq<Operand>, rankCheck: bool): (r: Result<Option<seq<nat>>, Error>)
    ensures r.Ok? ==> |inputs| == 2 && inputs[0].ITensor? && inputs[1].IWeights?
    ensures r.Ok? && r.value.Some? ==> var index := r.value.value;
      && 1 <= |index| <= 2 && index[0] != 0
      && index == PaddedDims(inputs[1].w, |inputs[0].dims| + 1)
    ensures r.Ok? && r.value.None? ==> PaddedDims(inputs[1].w, |inputs[0].dims| + 1) == []
    ensures r.Ok? && rankCheck ==> |inputs[0].dims| == 3
  {
    if |inputs| != 2 || !inputs[0].ITensor? || !inputs[1].IWeights? then
      Err(InvalidArgument("Input expects tensor and weights, at" + node.name))
    else
      var nbDims := |inputs[0].dims| + 1;
      var pads := inputs[1].w;
      if At(pads.shape, 0) != nbDims || At(pads.shape, 1) != 2 || (rankCheck && nbDims != 4) then
        Err(InvalidArgument("Pad only supports explicit padding on 4 dimensional tensor, at " + node.name))
      else if node.typeAttr != DtInt32 then Err(Unimplemented("Tpaddings supports only DT_INT32"))
      else
        var index := PaddedDims(pads, nbDims);
        if |index| == 0 then Ok(None)
        else if |index| > 2 then Err(InvalidArgument("Padding layer does not support padding on > 2"))
        else if index[0] == 0 then
          Err(InvalidArgument("Padding layer does not support padding on batch dimension"))
        else Ok(Some(index))
  }

  /** The layer for the padded dims `index`: padding on the channel axis is
      moved to the width axis by the transpose. */
  function PadLayerFor(pads: Weights, index: seq<nat>): PadPlan
    requires |index| >= 1
  {
    var transposed := index[0] == 1;
    var permuted := if transposed then [3 as int] + index[1..] else index;
    var slots := PadSlots(pads, index, permuted, 0, (0, 0), (0, 0));
    PadLayer(transposed, slots.0, slots.1)
  }

  /** The amounts the layer for one or two ascending padded dims receives:
      the height slot takes dim 2's amounts; the width slot takes dim 3's,
      or else dim 1's when the transpose moved the channel axis there. */
  lemma PadLayerAmounts(pads: Weights, index: seq<nat>)
    requires 1 <= |index| <= 2 && (|index| == 2 ==> index[0] < index[1])
    ensures PadLayerFor(pads, index).h == (if 2 in index then Requested(pads, 2) else (0, 0))
    ensures PadLayerFor(pads, index).w ==
      (if 3 in index then Requested(pads, 3) else if index[0] == 1 then Requested(pads, 1) else (0, 0))
  {
    var transposed := index[0] == 1;
    var permuted := if transposed then [3 as int] + index[1..] else index;
    var a0 := Requested(pads, index[0]);
    if |index| == 1 {
      var h0 := if permuted[0] == 2 then a0 else (0, 0);
      var w0 := if permuted[0] == 3 then a0 else (0, 0);
      assert PadSlots(pads, index, permuted, 1, h0, w0) == (h0, w0);
    } else {
      var a1 := Requested(pads, index[1]);
      var h0 := if permuted[0] == 2 then a0 else (0, 0);
      var w0 := if permuted[0] == 3 then a0 else (0, 0);
      var h1 := if permuted[1] == 2 then a1 else h0;
      var w1 := if permuted[1] == 3 then a1 else w0;
      assert PadSlots(pads, index, permuted, 2, h1, w1) == (h1, w1);
      assert PadSlots(pads, index, permuted, 1, h0, w0) == (h1, w1);
    }
  }

  /** `ConvertPad` as written. Its guard against padding dims 1 and 3 tests
      `index[0] == 0`, which the batch-dim check has already excluded. */
  function ConvertPad(node: NodeDef, inputs: seq<Operand>): (r: Result<PadPlan, Error>)
    ensures r.Ok? ==> |inputs| == 2 && inputs[0].ITensor? && inputs[1].IWeights?
    ensures r.Ok? ==> (r.value == PadIdentity <==> PaddedDims(inputs[1].w, |inputs[0].dims| + 1) == [])
    ensures r.Ok? && r.value.PadLayer? ==> var index := PaddedDims(inputs[1].w, |inputs[0].dims| + 1);
      1 <= |index| <= 2 && index[0] != 0 && (r.value.transposed <==> index[0] == 1)
    ensures r.Ok? && r.value.PadLayer? ==>
      var pads := inputs[1].w;
      var index := PaddedDims(pads, |inputs[0].dims| + 1);
      && r.value.h == (if 2 in index then Requested(pads, 2) else (0, 0))
      && r.value.w == (if 3 in index then Requested(pads, 3) else if index[0] == 1 then Requested(pads, 1) else (0, 0))
  {
    match PadChecks(node, inputs, false)
    case Err(e) => Err(e)
    case Ok(None) => Ok(PadIdentity)
    case Ok(Some(index)) =>
      if |index| == 2 && At(index, 0) == 0 && At(index, 1) == 3 then
        Err(Unimplemented("Padding layer does not support padding on dimension 1 and 3 yet"))
      else
        PadLayerAmounts(inputs[1].w, index);
        Ok(PadLayerFor(inputs[1].w, index))
  }

  /** The padding the plan applies to dim `d` of the original tensor, after
      undoing the transpose. */
  function Effective(plan: PadPlan, d: int): (int, int) {
    match plan
    case PadIdentity => (0, 0)
    case PadLayer(transposed, h, w) =>
      if d == 2 then h
      else if d == (if transposed then 1 else 3) then w
      else (0, 0)
  }

  /** Padding requested on dims 1 and 3 of a 4-d tensor. */
  function PadsOneAndThree(): Weights { Weights(DtInt32, [4, 2], [0, 0, 1, 1, 0, 0, 2, 2]) }

  /** As written, padding dims 1 and 3 passes the checks, and both amounts
      land in the width slot: dim 1 gets dim 3's padding and dim 3 gets
      none. */
  lemma PadOneAndThreeMisplaced()
    ensures var r := ConvertPad(NodeDef("p", "Pad", ["x", "q"], DtInt32), [ITensor([3, 8, 8]), IWeights(PadsOneAndThree())]);
      && r.Ok?
      && Effective(r.value, 1) == (2, 2) && Requested(PadsOneAndThree(), 1) == (1, 1)
      && Effective(r.value, 3) == (0, 0) && Requested(PadsOneAndThree(), 3) == (2, 2)
  {
    var node := NodeDef("p", "Pad", ["x", "q"], DtInt32);
    var inputs := [ITensor([3, 8, 8]), IWeights(PadsOneAndThree())];
    PadsOneAndThreeDims();
    assert PadChecks(node, inputs, false) == Ok(Some([1, 3]));
    PadsOneAndThreeLayer();
  }

  lemma PadsOneAndThreeDims()
    ensures PaddedDims(PadsOneAndThree(), 4) == [1, 3]
    ensures Requested(PadsOneAndThree(), 1) == (1, 1) && Requested(PadsOneAndThree(), 3) == (2, 2)
  {
    var pads := PadsOneAndThree();
    assert Requested(pads, 0) == (0, 0) && Requested(pads, 1) == (1, 1);
    assert Requested(pads, 2) == (0, 0) && Requested(pads, 3) == (2, 2);
    assert PaddedDims(pads, 1) == [];
    assert PaddedDims(pads, 2) == [1];
    assert PaddedDims(pads, 3) == [1];
  }

  lemma PadsOneAndThreeLayer()
    ensures PadLayerFor(PadsOneAndThree(), [1, 3]) == PadLayer(true, (0, 0), (2, 2))
  {
    var pads := PadsOneAndThree();
    assert Requested(pads, 1) == (1, 1) && Requested(pads, 3) == (2, 2);
    var index: seq<nat> := [1, 3];
    assert [3 as int] + index[1..] == [3, 3];
    assert PadSlots(pads, index, [3, 3], 2, (0, 0), (2, 2)) == ((0, 0), (2, 2));
    assert PadSlots(pads, index, [3, 3], 1, (0, 0), (1, 1)) == ((0, 0), (2, 2));
  }

  /** Padding requested on dim 4 of a 5-d tensor. */
  function PadsDimFour(): Weights { Weights(DtInt32, [5, 2], [0, 0, 0, 0, 0, 0, 0, 0, 1, 1]) }

  /** As written, nothing checks that the tensor is 4-d: padding on dim 4 of
      a 5-d tensor is accepted and dropped. */
  lemma PadBeyondWidthDropped()
    ensures var r := ConvertPad(NodeDef("p", "Pad", ["x", "q"], DtInt32), [ITensor([3, 8, 8, 8]), IWeights(PadsDimFour())]);
      && r.Ok? && Effective(r.value, 4) == (0, 0) && Requested(PadsDimFour(), 4) == (1, 1)
  {
    var node := NodeDef("p", "Pad", ["x", "q"], DtInt32);
    var inputs := [ITensor([3, 8, 8, 8]), IWeights(PadsDimFour())];
    PadsDimFourDims();
    assert PadChecks(node, inputs, false) == Ok(Some([4]));
  }

  lemma PadsDimFourDims()
    ensures PaddedDims(PadsDimFour(), 5) == [4] && Requested(PadsDimFour(), 4) == (1, 1)
  {
    var pads := PadsDimFour();
    assert Requested(pads, 0) == (0, 0) && Requested(pads, 1) == (0, 0);
    assert Requested(pads, 2) == (0, 0) && Requested(pads, 3) == (0, 0);
    assert Requested(pads, 4) == (1, 1);
    assert PaddedDims(pads, 1) == [];
    assert PaddedDims(pads, 2) == [];
    assert PaddedDims(pads, 3) == [];
    assert PaddedDims(pads, 4) == [];
  }

  /** The Pad converter as intended: the tensor must be 4-d, and padding on
      dims 1 and 3 together is rejected. */
  function ConvertPadFixed(node: NodeDef, inputs: seq<Operand>): (r: Result<PadPlan, Error>)
    ensures r.Ok? ==> |inputs| == 2 && inputs[0].ITensor? && inputs[1].IWeights? && |inputs[0].dims| == 3
  {
    match PadChecks(node, inputs, true)
    case Err(e) => Err(e)
    case Ok(None) => Ok(PadIdentity)
    case Ok(Some(index)) =>
      if |index| == 2 && index[0] == 1 && index[1] == 3 then
        Err(Unimplemented("Padding layer does not support padding on dimension 1 and 3 yet"))
      else Ok(PadLayerFor(inputs[1].w, index))
  }

  /** With the intended checks every dim receives exactly the padding
      requested for it. */
  lemma FixedPadApplied(node: NodeDef, inputs: seq<Operand>, d: int)
    requires ConvertPadFixed(node, inputs).Ok?
    requires 0 <= d < 4
    ensures Effective(ConvertPadFixed(node, inputs).value, d) == Requested(inputs[1].w, d)
  {
    var pads := inputs[1].w;
    var index := PaddedDims(pads, 4);
    if |index| > 0 {
      var plan := ConvertPadFixed(node, inputs).value;
      assert index[0] in {1, 2, 3};
      if |index| == 1 {
        if index[0] == 1 {
          assert [3 as int] + index[1..] == [3];
          assert PadSlots(pads, index, [3], 1, (0, 0), Requested(pads, 1)) == ((0, 0), Requested(pads, 1));
          assert plan == PadLayer(true, (0, 0), Requested(pads, 1));
        } else if index[0] == 2 {
          assert PadSlots(pads, index, index, 1, Requested(pads, 2), (0, 0)) == (Requested(pads, 2), (0, 0));
          assert plan == PadLayer(false, Requested(pads, 2), (0, 0));
        } else {
          assert PadSlots(pads, index, index, 1, (0, 0), Requested(pads, 3)) == ((0, 0), Requested(pads, 3));
          assert plan == PadLayer(false, (0, 0), Requested(pads, 3));
        }
      } else {
        assert index[1] in {2, 3};
        if index[0] == 1 {
          assert index[1] == 2;
          assert [3 as int] + index[1..] == [3, 2];
          assert PadSlots(pads, index, [3, 2], 2, Requested(pads, 2), Requested(pads, 1)) == (Requested(pads, 2), Requested(pads, 1));
          assert PadSlots(pads, index, [3, 2], 1, (0, 0), Requested(pads, 1)) == (Requested(pads, 2), Requested(pads, 1));
        } else {
          assert index[0] == 2 && index[1] == 3;
          assert PadSlots(pads, index, index, 2, Requested(pads, 2), Requested(pads, 3)) == (Requested(pads, 2), Requested(pads, 3));
          assert PadSlots(pads, index, index, 1, Requested(pads, 2), (0, 0)) == (Requested(pads, 2), Requested(pads, 3));
          assert plan == PadLayer(false, Requested(pads, 2), Requested(pads, 3));
        }
      }
    }
  }
}
