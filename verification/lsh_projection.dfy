/** The TFLite LSH projection kernel: shape checks in `Resize`, and the
    packing of sign bits into sparse signatures or a dense bit vector. The
    fingerprint hash and the weighted score it feeds are abstracted into a
    score function of the seed. */
module LshProjection {
  import opened Wrappers
  import opened CppInt

  datatype ProjectionType = Sparse | Dense | UnknownType

  /** The shapes of the node's inputs and its output count. Input 0 holds
      the hash seeds, input 1 the values, input 2 the optional weights. */
  datatype Node = Node(inputs: seq<seq<int>>, numOutputs: int)

  /** `Resize`: the output shape, or `None` for kTfLiteError. */
  function Resize(kind: ProjectionType, node: Node): (r: Option<seq<int>>)
    ensures r.Some? <==> (
      && |node.inputs| in {2, 3} && node.numOutputs == 1
      && |node.inputs[0]| == 2 && node.inputs[0][1] <= 32
      && |node.inputs[1]| >= 1
      && (|node.inputs| == 3 ==> |node.inputs[2]| == 1 && node.inputs[2][0] == node.inputs[1][0])
      && kind != UnknownType)
    ensures r.Some? && kind == Sparse ==> r.value == [node.inputs[0][0]]
    ensures r.Some? && kind == Dense ==> r.value == [node.inputs[0][0] * node.inputs[0][1]]
  {
    if |node.inputs| !in {2, 3} || node.numOutputs != 1 then None
    else
      var hash := node.inputs[0];
      if |hash| != 2 || hash[1] > 32 then None
      else
        var input := node.inputs[1];
        if |input| < 1 then None
        else if |node.inputs| == 3 && (|node.inputs[2]| != 1 || node.inputs[2][0] != input[0]) then None
        else match kind
          case Sparse => Some([hash[0]])
          case Dense => Some([hash[0] * hash[1]])
          case UnknownType => None
  }

  /** `RunningSignBit`: 1 when the score for the seed is positive. */
  function SignBit(score: real -> real, seed: real): (b: int)
    ensures b == 0 || b == 1
    ensures b == 1 <==> score(seed) > 0.0
  {
    if score(seed) > 0.0 then 1 else 0
  }

  /** The bit for hash function `i`, bit `j`: the seed is read row-major. */
  function SeedBit(seeds: seq<real>, numBits: nat, score: real -> real, i: nat, j: nat): (b: int)
    ensures b == 0 || b == 1
  {
    var k := i * numBits + j;
    SignBit(score, if k < |seeds| then seeds[k] else 0.0)
  }

  function Pow2(n: nat): (r: nat)
    ensures r >= 1
  {
    if n == 0 then 1 else 2 * Pow2(n - 1)
  }

  /** Bits packed first-bit-most-significant, as the shift-and-or loop does. */
  function PackBits(bits: seq<int>): int {
    if |bits| == 0 then 0 else PackBits(bits[..|bits| - 1]) * 2 + bits[|bits| - 1]
  }

  /** The `n` low bits of `v`, most significant first. */
  function UnpackBits(v: int, n: nat): (r: seq<int>)
    ensures |r| == n
    decreases n
  {
    if n == 0 then [] else UnpackBits(v / 2, n - 1) + [v % 2]
  }

  predicate IsBits(bits: seq<int>) {
    forall k :: 0 <= k < |bits| ==> bits[k] == 0 || bits[k] == 1
  }

  /** A packed signature of `n` bits lies in `[0, 2^n)`. */
  lemma {:induction false} PackBitsRange(bits: seq<int>)
    requires IsBits(bits)
    ensures 0 <= PackBits(bits) < Pow2(|bits|)
  {
    if |bits| > 0 {
      PackBitsRange(bits[..|bits| - 1]);
    }
  }

  /** Unpacking a packed signature gives the bits back. */
  lemma {:induction false} UnpackPack(bits: seq<int>)
    requires IsBits(bits)
    ensures UnpackBits(PackBits(bits), |bits|) == bits
  {
    if |bits| > 0 {
      var init := bits[..|bits| - 1];
      var last := bits[|bits| - 1];
      var v := PackBits(bits);
      assert v == PackBits(init) * 2 + last;
      DivUnique(v, 2, PackBits(init), last);
      UnpackPack(init);
      assert init + [last] == bits;
    }
  }

  /** The row of bits for hash function `i`. */
  function RowBits(seeds: seq<real>, numBits: nat, score: real -> real, i: nat): (r: seq<int>)
    ensures |r| == numBits && IsBits(r)
    ensures forall j :: 0 <= j < numBits ==> r[j] == SeedBit(seeds, numBits, score, i, j)
  {
    seq(numBits, j requires 0 <= j < numBits => SeedBit(seeds, numBits, score, i, j))
  }

  /** `SparseLshProjection`: one signature per hash function, its bits
      packed by shifting, offset by `i * 2^numBits`. */
  method SparseProjection(seeds: seq<real>, numHash: nat, numBits: nat, score: real -> real) returns (out: seq<int>)
    ensures |out| == numHash
    ensures forall i :: 0 <= i < numHash ==> out[i] == PackBits(RowBits(seeds, numBits, score, i)) + i * Pow2(numBits)
  {
    out := [];
    var i := 0;
    while i < numHash
      invariant 0 <= i <= numHash && |out| == i
      invariant forall k :: 0 <= k < i ==> out[k] == PackBits(RowBits(seeds, numBits, score, k)) + k * Pow2(numBits)
    {
      var signature := 0;
      var shift := 1;
      var j := 0;
      while j < numBits
        invariant 0 <= j <= numBits
        invariant signature == PackBits(RowBits(seeds, numBits, score, i)[..j])
        invariant shift == Pow2(j)
      {
        var row := RowBits(seeds, numBits, score, i);
        assert row[..j + 1][..j] == row[..j];
        signature := signature * 2 + SeedBit(seeds, numBits, score, i, j);
        shift := shift * 2;
        j := j + 1;
      }
      assert RowBits(seeds, numBits, score, i)[..numBits] == RowBits(seeds, numBits, score, i);
      out := out + [signature + i * shift];
      i := i + 1;
    }
  }

  /** Under the bound `numHash * 2^numBits <= 2^31` the sparse output `i`
      lies in `[i * 2^numBits, (i + 1) * 2^numBits)` and fits in an int32,
      so distinct hash functions never produce the same signature. */
  lemma SparseSignatureRange(seeds: seq<real>, numBits: nat, score: real -> real, i: nat, numHash: nat)
    requires i < numHash && numHash * Pow2(numBits) <= Pow2(31)
    ensures var v := PackBits(RowBits(seeds, numBits, score, i)) + i * Pow2(numBits);
      && i * Pow2(numBits) <= v < (i + 1) * Pow2(numBits)
      && v / Pow2(numBits) == i
      && v < Pow2(31)
  {
    var row := RowBits(seeds, numBits, score, i);
    var b, p := PackBits(row), Pow2(numBits);
    PackBitsRange(row);
    assert 0 <= b < p;
    SlotRange(b, i, p, numHash, Pow2(31));
  }

  /** A value below `p` offset by `i * p` lies in slot `i` of width `p`. */
  lemma SlotRange(b: int, i: nat, p: int, n: nat, top: int)
    requires p > 0 && 0 <= b < p && i < n && n * p <= top
    ensures i * p <= b + i * p < (i + 1) * p
    ensures (b + i * p) / p == i
    ensures b + i * p < top
  {
    DivUnique(b + i * p, p, i, b);
    MulMono(i + 1, n, p);
    assert (i + 1) * p == i * p + p;
  }

  /** The dense output for the first `n` hash functions. */
  function DenseRows(seeds: seq<real>, n: nat, numBits: nat, score: real -> real): (r: seq<int>)
    ensures |r| == n * numBits
  {
    if n == 0 then [] else DenseRows(seeds, n - 1, numBits, score) + RowBits(seeds, numBits, score, n - 1)
  }

  /** Entry `i * numBits + j` of the dense rows is the bit for `(i, j)`. */
  lemma {:induction false} DenseRowsIndex(seeds: seq<real>, n: nat, numBits: nat, score: real -> real, i: nat, j: nat)
    requires i < n && j < numBits
    ensures RowMajor(i, j, n, numBits)
    ensures DenseRows(seeds, n, numBits, score)[i * numBits + j] == SeedBit(seeds, numBits, score, i, j)
  {
    RowMajorIndex(i, j, n, numBits);
    var prev := DenseRows(seeds, n - 1, numBits, score);
    assert |prev| == (n - 1) * numBits;
    if i < n - 1 {
      DenseRowsIndex(seeds, n - 1, numBits, score, i, j);
    } else {
      assert i * numBits + j - |prev| == j;
    }
  }

  /** `DenseLshProjection`: every bit, row-major. */
  method DenseProjection(seeds: seq<real>, numHash: nat, numBits: nat, score: real -> real) returns (out: seq<int>)
    ensures |out| == numHash * numBits
    ensures forall i, j :: 0 <= i < numHash && 0 <= j < numBits ==>
      RowMajor(i, j, numHash, numBits) && out[i * numBits + j] == SeedBit(seeds, numBits, score, i, j)
  {
    out := [];
    var i := 0;
    while i < numHash
      invariant 0 <= i <= numHash
      invariant out == DenseRows(seeds, i, numBits, score)
    {
      var row := RowBits(seeds, numBits, score, i);
      var j := 0;
      while j < numBits
        invariant 0 <= j <= numBits
        invariant out == DenseRows(seeds, i, numBits, score) + row[..j]
      {
        assert row[..j + 1] == row[..j] + [SeedBit(seeds, numBits, score, i, j)];
        out := out + [SeedBit(seeds, numBits, score, i, j)];
        j := j + 1;
      }
      assert row[..numBits] == row;
      i := i + 1;
    }
    forall i, j | 0 <= i < numHash && 0 <= j < numBits
      ensures RowMajor(i, j, numHash, numBits) && out[i * numBits + j] == SeedBit(seeds, numBits, score, i, j)
    {
      DenseRowsIndex(seeds, numHash, numBits, score, i, j);
    }
  }

  /** Position `(i, j)` of an `n x m` row-major layout is in range. */
  predicate RowMajor(i: nat, j: nat, n: nat, m: nat) {
    i * m + j < n * m
  }

  lemma RowMajorIndex(i: nat, j: nat, n: nat, m: nat)
    requires i < n && j < m
    ensures RowMajor(i, j, n, m)
    ensures (i * m + j) / m == i && (i * m + j) % m == j
  {
    MulMono(i + 1, n, m);
    DivUnique(i * m + j, m, i, j);
  }

  /** `Eval`: the projection chosen by the type; an unknown type is an
      error. */
  method Eval(kind: ProjectionType, seeds: seq<real>, numHash: nat, numBits: nat, score: real -> real)
    returns (r: Option<seq<int>>)
    ensures kind == UnknownType <==> r.None?
    ensures kind == Sparse ==> (
      && r.Some? && |r.value| == numHash
      && forall i :: 0 <= i < numHash ==> r.value[i] == PackBits(RowBits(seeds, numBits, score, i)) + i * Pow2(numBits))
    ensures kind == Dense ==> (
      && r.Some? && |r.value| == numHash * numBits
      && forall i, j :: 0 <= i < numHash && 0 <= j < numBits ==>
           RowMajor(i, j, numHash, numBits) && r.value[i * numBits + j] == SeedBit(seeds, numBits, score, i, j))
  {
    match kind {
      case Dense =>
        var out := DenseProjection(seeds, numHash, numBits, score);
        r := Some(out);
      case Sparse =>
        var out := SparseProjection(seeds, numHash, numBits, score);
        r := Some(out);
      case UnknownType =>
        r := None;
    }
  }
}
