/** The TFLite Mul kernel's `Prepare` checks and `Eval` dispatch; the float
    and quantized multiplications themselves are outside the model. */
module TfliteMul {
  import opened Wrappers

  datatype TensorType = Float32 | UInt8 | OtherType

  datatype Tensor = Tensor(dtype: TensorType, dims: seq<int>)

  /** `Prepare`: two inputs of identical dims (no broadcasting) whose type
      is the output's; the output is resized to input 1's dims. `None` is
      kTfLiteError. */
  function Prepare(inputs: seq<Tensor>, outputs: seq<Tensor>): (r: Option<seq<int>>)
    ensures r.Some? <==> (
      && |inputs| == 2 && |outputs| == 1
      && inputs[0].dims == inputs[1].dims
      && inputs[0].dtype == outputs[0].dtype && inputs[1].dtype == outputs[0].dtype)
    ensures r.Some? ==> r.value == inputs[0].dims && r.value == inputs[1].dims
  {
    if |inputs| != 2 || |outputs| != 1 then None
    else
      var a, b, out := inputs[0], inputs[1], outputs[0];
      if |a.dims| != |b.dims| then None
      else if exists i :: 0 <= i < |a.dims| && a.dims[i] != b.dims[i] then None
      else if a.dtype != out.dtype || b.dtype != out.dtype then None
      else Some(a.dims)
  }

  /** Which multiplication `Eval` runs. */
  datatype Kernel = FloatMul | QuantizedMul

  /** `Eval`: dispatch on the output type. */
  function Eval(output: Tensor): (r: Result<Kernel, string>)
    ensures r == Ok(FloatMul) <==> output.dtype == Float32
    ensures r == Ok(QuantizedMul) <==> output.dtype == UInt8
    ensures r.Err? <==> output.dtype == OtherType
    ensures r.Err? ==> r.error == "Mul only supports FLOAT32 and quantized UINT8 now."
  {
    match output.dtype
    case Float32 => Ok(FloatMul)
    case UInt8 => Ok(QuantizedMul)
    case OtherType => Err("Mul only supports FLOAT32 and quantized UINT8 now.")
  }

  /** After a successful `Prepare`, `Eval` multiplies both inputs with the
      kernel of their common type, or rejects that type. */
  lemma PreparedInputsShareKernel(inputs: seq<Tensor>, outputs: seq<Tensor>)
    requires Prepare(inputs, outputs).Some?
    ensures Eval(outputs[0]).Ok? ==> (
      && inputs[0].dtype == inputs[1].dtype != OtherType
      && (Eval(outputs[0]).value == FloatMul <==> inputs[0].dtype == Float32))
    ensures Eval(outputs[0]).Err? ==> inputs[0].dtype == OtherType && inputs[1].dtype == OtherType
  {
  }
}
