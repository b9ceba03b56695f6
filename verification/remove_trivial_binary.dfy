/** The toco rule that removes a binary operator whose constant operand
    makes it the identity on its other operand. Float buffers are modelled
    as sequences of reals: NaN and signed zero are outside the model. */
module RemoveTrivialBinary {
  datatype OpType = Add | Mul | Sub | Div | OtherOp

  datatype ArrayType = Float | OtherType

  /** What the rule looks up for one input: whether it is a constant
      parameter array, and the constant's type and float buffer. */
  datatype Input = Input(isConstant: bool, dtype: ArrayType, data: seq<real>)

  /** The rule's outcome: leave the graph alone, hand the operator to the
      pass-through removal (whose result `Run` returns), or abort on a
      failed CHECK. */
  datatype Outcome = NoChange | RemovePassthrough | Abort

  /** `AreAllBufferElementsEqualTo`: the early-exit scan. */
  method AreAllBufferElementsEqualTo(buffer: seq<real>, value: real) returns (r: bool)
    ensures r <==> forall k :: 0 <= k < |buffer| ==> buffer[k] == value
  {
    var i := 0;
    while i < |buffer|
      invariant 0 <= i <= |buffer|
      invariant forall k :: 0 <= k < i ==> buffer[k] == value
    {
      if buffer[i] != value {
        return false;
      }
      i := i + 1;
    }
    return true;
  }

  predicate AllEqual(buffer: seq<real>, value: real) {
    forall k :: 0 <= k < |buffer| ==> buffer[k] == value
  }

  /** The triviality test as written: each branch tests `!=` where `==` was
      meant, so only the first two branches can run. */
  function IsTrivialAsWritten(op: OpType, constIndex: nat, data: seq<real>): (r: bool)
    requires op != OtherOp
    ensures op in {Mul, Sub, Div} ==> (r <==> AllEqual(data, 0.0))
    ensures op == Add ==> (r <==> constIndex == 1 && AllEqual(data, 0.0))
  {
    if op != Add then AllEqual(data, 0.0)
    else if op != Sub then constIndex == 1 && AllEqual(data, 0.0)
    else if op != Mul then AllEqual(data, 1.0)
    else if op != Div then constIndex == 1 && AllEqual(data, 1.0)
    else false
  }

  /** The triviality test as intended: 0 on either side of Add, 1 on either
      side of Mul, 0 subtracted, and division by 1. */
  function IsTrivial(op: OpType, constIndex: nat, data: seq<real>): bool
    requires op != OtherOp
  {
    match op
    case Add => AllEqual(data, 0.0)
    case Sub => constIndex == 1 && AllEqual(data, 0.0)
    case Mul => AllEqual(data, 1.0)
    case Div => constIndex == 1 && AllEqual(data, 1.0)
  }

  /** The scalar operation (division by zero gives 0 here; it does not
      arise below). */
  function Apply(op: OpType, lhs: real, rhs: real): real
    requires op != OtherOp
  {
    match op
    case Add => lhs + rhs
    case Sub => lhs - rhs
    case Mul => lhs * rhs
    case Div => if rhs == 0.0 then 0.0 else lhs / rhs
  }

  /** The operation with constant `c` at input `constIndex` and `x` at the
      other input. */
  function ApplyWithConstant(op: OpType, constIndex: nat, c: real, x: real): real
    requires op != OtherOp
  {
    if constIndex == 0 then Apply(op, c, x) else Apply(op, x, c)
  }

  /** A trivial operator under the intended test leaves its variable input
      unchanged for every constant element. */
  lemma TrivialIsIdentity(op: OpType, constIndex: nat, data: seq<real>, x: real, k: nat)
    requires op != OtherOp && constIndex <= 1
    requires IsTrivial(op, constIndex, data) && k < |data|
    ensures ApplyWithConstant(op, constIndex, data[k], x) == x
  {
  }

  /** As written, `x * 0` counts as trivial and would be replaced by `x`. */
  lemma MulByZeroRemovedAsWritten()
    ensures IsTrivialAsWritten(Mul, 1, [0.0])
    ensures ApplyWithConstant(Mul, 1, 0.0, 5.0) != 5.0
  {
    assert AllEqual([0.0], 0.0);
  }

  /** As written, `x * 1` is not recognised. */
  lemma MulByOneKeptAsWritten()
    ensures !IsTrivialAsWritten(Mul, 1, [1.0])
    ensures IsTrivial(Mul, 1, [1.0])
  {
    assert [1.0][0] != 0.0;
  }

  /** `RemoveTrivialBinaryOperator::Run` with a given triviality test. */
  function RunWith(op: OpType, inputs: seq<Input>, intended: bool): (r: Outcome)
    ensures op == OtherOp ==> r == NoChange
    ensures op != OtherOp && |inputs| != 2 ==> r == Abort
    ensures op != OtherOp && |inputs| == 2 && inputs[0].isConstant == inputs[1].isConstant ==> r == NoChange
    ensures r == RemovePassthrough ==> (
      && op != OtherOp && |inputs| == 2 && inputs[0].isConstant != inputs[1].isConstant
      && var c := if inputs[0].isConstant then 0 else 1;
         && inputs[c].dtype == Float
         && (if intended then IsTrivial(op, c, inputs[c].data) else IsTrivialAsWritten(op, c, inputs[c].data)))
    ensures op != OtherOp && |inputs| == 2 && inputs[0].isConstant != inputs[1].isConstant ==>
      var c := if inputs[0].isConstant then 0 else 1;
      (inputs[c].dtype == Float
       && (if intended then IsTrivial(op, c, inputs[c].data) else IsTrivialAsWritten(op, c, inputs[c].data)))
      ==> r == RemovePassthrough
  {
    if op == OtherOp then NoChange
    else if |inputs| != 2 then Abort
    else if !inputs[0].isConstant && !inputs[1].isConstant then NoChange
    else if inputs[0].isConstant && inputs[1].isConstant then NoChange
    else
      var c := if inputs[0].isConstant then 0 else 1;
      if inputs[c].dtype != Float then NoChange
      else
        var trivial := if intended then IsTrivial(op, c, inputs[c].data) else IsTrivialAsWritten(op, c, inputs[c].data);
        if !trivial then NoChange else RemovePassthrough
  }

  /** With the intended test, an operator handed to pass-through removal
      computes the identity on its variable input. */
  lemma RemovedOperatorIsIdentity(op: OpType, inputs: seq<Input>, x: real, k: nat)
    requires RunWith(op, inputs, true) == RemovePassthrough
    ensures var c := if inputs[0].isConstant then 0 else 1;
      k < |inputs[c].data| ==> ApplyWithConstant(op, c, inputs[c].data[k], x) == x
  {
    var c := if inputs[0].isConstant then 0 else 1;
    if k < |inputs[c].data| {
      TrivialIsIdentity(op, c, inputs[c].data, x, k);
    }
  }
}
