/** Validation of a strided-slice specification against an input shape: the
    sparse specification (per-entry begin, end, stride and five 32-bit masks)
    is expanded into a dense one (one entry per input dimension), each
    dimension is canonicalised and bounds-checked, and the processing and
    final shapes are computed. Integers are unbounded here; the source uses
    64-bit arithmetic. */
module StridedSlice {
  import opened Wrappers
  import opened CppInt
  import Decimal

  /** Markers in the final-shape gather list. */
  const ShrinkAxis: int := -1
  const NewAxis: int := -2

  /** Bit `i` of a 32-bit mask, `(1 << i) & m`. */
  predicate Bit(m: bv32, i: nat) {
    i < 32 && m & ((1 as bv32) << i) != 0
  }

  // ---------------------------------------------------------------------------
  // The ellipsis-mask check
  // ---------------------------------------------------------------------------

  /** The source's test for "more than one ellipsis": `m && (m & (m - 1)) != 0`. */
  predicate MultipleEllipses(m: bv32) {
    m != 0 && m & (m - 1) != 0
  }

  /** A mask with a single bit passes the test. */
  lemma SingleEllipsisAccepted(i: nat)
    requires i < 32
    ensures !MultipleEllipses((1 as bv32) << i)
  {
  }

  /** A mask with two distinct bits fails it. */
  lemma TwoEllipsesRejected(m: bv32, i: nat, j: nat)
    requires Bit(m, i) && Bit(m, j) && i < j
    ensures MultipleEllipses(m)
  {
  }

  // ---------------------------------------------------------------------------
  // Step 1: the sparse specification
  // ---------------------------------------------------------------------------

  /** The element type of the begin tensor. */
  datatype IndexType = Int32 | Int64 | OtherType

  /** A begin, end or strides tensor: its shape and flat contents. */
  datatype IndexTensor = IndexTensor(dtype: IndexType, shape: seq<nat>, values: seq<int>)

  /** A vector's contents have as many elements as its one dimension says. */
  predicate TensorOk(t: IndexTensor) {
    |t.shape| == 1 ==> |t.values| == t.shape[0]
  }

  /** The five masks of the op. */
  datatype Masks = Masks(begin: bv32, end: bv32, ellipsis: bv32, newAxis: bv32, shrink: bv32)

  /** `StridedSliceSparseSpec`. */
  datatype SparseSpec = SparseSpec(dims: nat, numAddAxisAfterEllipsis: nat,
                                   begin: seq<int>, end: seq<int>, strides: seq<int>, masks: Masks)

  /** Whether an ellipsis bit is set below position `k`. */
  predicate EllipsisBefore(m: bv32, k: nat) {
    exists j :: 0 <= j < k && Bit(m, j)
  }

  /** `num_add_axis_after_ellipsis` over the first `n` entries: new-axis bits
      strictly after the first ellipsis bit. */
  function NumAddAxisAfterEllipsis(masks: Masks, n: nat): nat {
    if n == 0 then 0
    else NumAddAxisAfterEllipsis(masks, n - 1) +
         (if EllipsisBefore(masks.ellipsis, n - 1) && Bit(masks.newAxis, n - 1) then 1 else 0)
  }

  /** A sparse spec as step 1 leaves it: equal-length vectors, and when no
      ellipsis was given, one appended as the entry after the last. */
  predicate SparseOk(sp: SparseSpec) {
    && |sp.begin| == |sp.end| == |sp.strides| < 32
    && (sp.dims == |sp.begin| || (sp.dims == |sp.begin| + 1 && Bit(sp.masks.ellipsis, |sp.begin|)))
  }

  /** Step 1: count the new axes after the ellipsis, and append an ellipsis
      when there is none among the entries. */
  function MakeSparse(begin: seq<int>, end: seq<int>, strides: seq<int>, masks: Masks): (sp: SparseSpec)
    requires |begin| == |end| == |strides| < 32
    ensures SparseOk(sp)
    ensures sp.begin == begin && sp.end == end && sp.strides == strides
    ensures EllipsisBefore(masks.ellipsis, |begin|) <==> sp.dims == |begin|
    // an entry that was an ellipsis stays one, and no other entry becomes one
    ensures forall i :: 0 <= i < |begin| ==> (Bit(sp.masks.ellipsis, i) <==> Bit(masks.ellipsis, i))
  {
    var n := |begin|;
    var num := NumAddAxisAfterEllipsis(masks, n);
    if EllipsisBefore(masks.ellipsis, n) then SparseSpec(n, num, begin, end, strides, masks)
    else
      var m := masks.(ellipsis := masks.ellipsis | ((1 as bv32) << n));
      forall i | 0 <= i < n ensures Bit(m.ellipsis, i) <==> Bit(masks.ellipsis, i) {
        OrBitLemma(masks.ellipsis, n, i);
      }
      OrSetsBit(masks.ellipsis, n);
      SparseSpec(n + 1, num, begin, end, strides, m)
  }

  lemma OrBitLemma(m: bv32, n: nat, i: nat)
    requires i < n < 32
    ensures Bit(m | ((1 as bv32) << n), i) <==> Bit(m, i)
  {
    ShiftDisjoint(i, n);
    AndOverOr(m, (1 as bv32) << n, (1 as bv32) << i);
  }

  lemma OrSetsBit(m: bv32, n: nat)
    requires n < 32
    ensures Bit(m | ((1 as bv32) << n), n)
  {
    AndOverOr(m, (1 as bv32) << n, (1 as bv32) << n);
  }

  lemma ShiftDisjoint(i: nat, n: nat)
    requires i < 32 && n < 32 && i != n
    ensures ((1 as bv32) << n) & ((1 as bv32) << i) == 0
  {
  }

  lemma AndOverOr(a: bv32, b: bv32, c: bv32)
    ensures (a | b) & c == (a & c) | (b & c)
  {
  }

  // ---------------------------------------------------------------------------
  // Step 2: the dense specification
  // ---------------------------------------------------------------------------

  /** `StridedSliceDenseSpec` while it is being built: the next dense index,
      the per-dimension begin, end, stride and mask bits, the gather list,
      and whether a write fell beyond the dense dimensions. */
  datatype DenseSpec = DenseSpec(fullIndex: nat, begin: seq<int>, end: seq<int>, strides: seq<int>,
                                 beginMask: seq<bool>, endMask: seq<bool>, shrinkMask: seq<bool>,
                                 gather: seq<int>, outOfRange: bool)

  predicate DenseShapeOk(d: DenseSpec, dims: nat) {
    |d.begin| == |d.end| == |d.strides| == |d.beginMask| == |d.endMask| == |d.shrinkMask| == dims
  }

  /** Every gather entry is a marker or a dense index. */
  predicate GatherOk(d: DenseSpec, dims: nat) {
    forall k :: 0 <= k < |d.gather| ==> d.gather[k] == ShrinkAxis || d.gather[k] == NewAxis || 0 <= d.gather[k] < dims
  }

  /** The fresh dense arrays: zeros, as `resize` leaves them. */
  function InitialDense(dims: nat): (d: DenseSpec)
    ensures DenseShapeOk(d, dims) && GatherOk(d, dims) && d.fullIndex == 0 && !d.outOfRange
  {
    DenseSpec(0, seq(dims, _ => 0), seq(dims, _ => 0), seq(dims, _ => 0),
              seq(dims, _ => false), seq(dims, _ => false), seq(dims, _ => false), [], false)
  }

  /** A write through `operator[]`; a write past the end is lost here (in the
      source it lands outside the array). */
  function Write<T>(s: seq<T>, k: nat, v: T): (r: seq<T>)
    ensures |r| == |s|
    ensures forall j :: 0 <= j < |s| ==> r[j] == (if j == k then v else s[j])
  {
    if k < |s| then s[k := v] else s
  }

  /** The ellipsis expansion: dense entries up to `next` take everything
      (begin and end masked, stride 1) and are gathered as they are. */
  function Fill(d: DenseSpec, dims: nat, next: int): (r: DenseSpec)
    requires DenseShapeOk(d, dims) && next <= dims
    ensures DenseShapeOk(r, dims) && r.outOfRange == d.outOfRange
    ensures GatherOk(d, dims) ==> GatherOk(r, dims)
    ensures r.fullIndex == if d.fullIndex < next then next else d.fullIndex
    ensures forall j :: 0 <= j < dims && d.fullIndex <= j < next ==>
      r.begin[j] == 0 && r.end[j] == 0 && r.strides[j] == 1 && r.beginMask[j] && r.endMask[j] && r.shrinkMask[j] == d.shrinkMask[j]
    ensures forall j :: 0 <= j < dims && !(d.fullIndex <= j < next) ==>
      r.begin[j] == d.begin[j] && r.end[j] == d.end[j] && r.strides[j] == d.strides[j]
      && r.beginMask[j] == d.beginMask[j] && r.endMask[j] == d.endMask[j] && r.shrinkMask[j] == d.shrinkMask[j]
    ensures r.gather == d.gather + seq(if d.fullIndex < next then next - d.fullIndex else 0, k => d.fullIndex + k)
    decreases next - d.fullIndex
  {
    if d.fullIndex >= next then
      assert d.gather + [] == d.gather;
      d
    else
      var fi := d.fullIndex;
      var d1 := d.(fullIndex := fi + 1, begin := d.begin[fi := 0], end := d.end[fi := 0],
                   strides := d.strides[fi := 1], beginMask := d.beginMask[fi := true],
                   endMask := d.endMask[fi := true], gather := d.gather + [fi]);
      assert DenseShapeOk(d1, dims);
      assert GatherOk(d, dims) ==> GatherOk(d1, dims) by {
        if GatherOk(d, dims) {
          assert forall k :: 0 <= k < |d.gather| ==> d1.gather[k] == d.gather[k];
        }
      }
      var r := Fill(d1, dims, next);
      assert r.gather == d.gather + seq(next - fi, k => fi + k);
      r
  }

  /** `BuildDenseSpec` from sparse entry `i` on. With `checked`, a real entry
      that finds no dense dimension left is an error; without it (as
      written), the entry is written past the dense arrays and gathered from a
      dimension the input does not have. */
  function DenseFrom(sp: SparseSpec, dims: nat, i: nat, d: DenseSpec, checked: bool): (r: Result<DenseSpec, string>)
    requires SparseOk(sp) && DenseShapeOk(d, dims)
    requires checked ==> d.fullIndex <= dims && !d.outOfRange && GatherOk(d, dims)
    ensures !checked ==> r.Ok?
    ensures r.Ok? ==> DenseShapeOk(r.value, dims)
    ensures r.Ok? && checked ==> GatherOk(r.value, dims) && !r.value.outOfRange
    ensures r.Ok? && d.outOfRange ==> r.value.outOfRange
    decreases sp.dims - i
  {
    if i >= sp.dims then Ok(d)
    else if Bit(sp.masks.ellipsis, i) then
      var next := Min(dims - (sp.dims - i) + 1 + sp.numAddAxisAfterEllipsis, dims);
      DenseFrom(sp, dims, i + 1, Fill(d, dims, next), checked)
    else if Bit(sp.masks.newAxis, i) then
      DenseFrom(sp, dims, i + 1, d.(gather := d.gather + [NewAxis]), checked)
    else if checked && d.fullIndex >= dims then
      Err("Index out of range using input dim " + Decimal.NatToString(d.fullIndex) +
          "; input has only " + Decimal.NatToString(dims) + " dims")
    else
      DenseFrom(sp, dims, i + 1, RealEntry(sp, dims, i, d), checked)
  }

  /** A real sparse entry written to the next dense dimension: its begin,
      end, stride and masks, and a gather of that dimension or the shrink
      marker. Past the dense arrays the writes are dropped and the spec is
      marked out of range. */
  function RealEntry(sp: SparseSpec, dims: nat, i: nat, d: DenseSpec): (r: DenseSpec)
    requires SparseOk(sp) && DenseShapeOk(d, dims) && i < sp.dims && !Bit(sp.masks.ellipsis, i)
    ensures DenseShapeOk(r, dims) && r.fullIndex == d.fullIndex + 1
    ensures r.outOfRange == (d.outOfRange || d.fullIndex >= dims)
    ensures d.fullIndex < dims && GatherOk(d, dims) ==> GatherOk(r, dims)
  {
    var fi := d.fullIndex;
    var shrink := Bit(sp.masks.shrink, i);
    var r := d.(fullIndex := fi + 1,
                begin := Write(d.begin, fi, sp.begin[i]),
                end := Write(d.end, fi, sp.end[i]),
                strides := Write(d.strides, fi, sp.strides[i]),
                beginMask := if Bit(sp.masks.begin, i) then Write(d.beginMask, fi, true) else d.beginMask,
                endMask := if Bit(sp.masks.end, i) then Write(d.endMask, fi, true) else d.endMask,
                shrinkMask := if shrink then Write(d.shrinkMask, fi, true) else d.shrinkMask,
                gather := d.gather + [if shrink then ShrinkAxis else fi as int],
                outOfRange := d.outOfRange || fi >= dims);
    assert forall k :: 0 <= k < |d.gather| ==> r.gather[k] == d.gather[k];
    r
  }

  function Min(a: int, b: int): int {
    if a < b then a else b
  }

  /** Step 2 with the bounds check on real entries. */
  function BuildDenseSpec(sp: SparseSpec, dims: nat): (r: Result<DenseSpec, string>)
    requires SparseOk(sp)
    ensures r.Ok? ==> DenseShapeOk(r.value, dims) && GatherOk(r.value, dims) && !r.value.outOfRange
  {
    DenseFrom(sp, dims, 0, InitialDense(dims), true)
  }

  /** Step 2 as written: never fails, and may write past the dense arrays. */
  function BuildDenseSpecAsWritten(sp: SparseSpec, dims: nat): (d: DenseSpec)
    requires SparseOk(sp)
    ensures DenseShapeOk(d, dims)
  {
    DenseFrom(sp, dims, 0, InitialDense(dims), false).value
  }

  /** The bounds check changes nothing where the unchecked expansion stays
      inside the dense arrays. */
  lemma {:induction false} CheckedAgreesInRange(sp: SparseSpec, dims: nat, i: nat, d: DenseSpec)
    requires SparseOk(sp) && DenseShapeOk(d, dims) && d.fullIndex <= dims && !d.outOfRange && GatherOk(d, dims)
    requires !DenseFrom(sp, dims, i, d, false).value.outOfRange
    ensures DenseFrom(sp, dims, i, d, true) == DenseFrom(sp, dims, i, d, false)
    decreases sp.dims - i
  {
    if i < sp.dims {
      var e := DenseStep(sp, dims, i, d);
      CheckedAgreesInRange(sp, dims, i + 1, e);
    }
  }


  /** One sparse entry of the expansion, as the checked and the unchecked
      expansions both take it when the unchecked one stays in range. */
  lemma DenseStep(sp: SparseSpec, dims: nat, i: nat, d: DenseSpec) returns (e: DenseSpec)
    requires SparseOk(sp) && DenseShapeOk(d, dims) && d.fullIndex <= dims && !d.outOfRange && GatherOk(d, dims)
    requires i < sp.dims && !DenseFrom(sp, dims, i, d, false).value.outOfRange
    ensures DenseShapeOk(e, dims) && e.fullIndex <= dims && !e.outOfRange && GatherOk(e, dims)
    ensures DenseFrom(sp, dims, i, d, true) == DenseFrom(sp, dims, i + 1, e, true)
    ensures DenseFrom(sp, dims, i, d, false) == DenseFrom(sp, dims, i + 1, e, false)
  {
    if Bit(sp.masks.ellipsis, i) {
      e := EllipsisStep(sp, dims, i, d);
    } else if Bit(sp.masks.newAxis, i) {
      e := d.(gather := d.gather + [NewAxis]);
    } else {
      e := RealStep(sp, dims, i, d);
    }
  }

  /** The ellipsis entry: both expansions fill the same dense dimensions. */
  lemma EllipsisStep(sp: SparseSpec, dims: nat, i: nat, d: DenseSpec) returns (e: DenseSpec)
    requires SparseOk(sp) && DenseShapeOk(d, dims) && d.fullIndex <= dims && !d.outOfRange && GatherOk(d, dims)
    requires i < sp.dims && Bit(sp.masks.ellipsis, i)
    ensures DenseShapeOk(e, dims) && e.fullIndex <= dims && !e.outOfRange && GatherOk(e, dims)
    ensures DenseFrom(sp, dims, i, d, true) == DenseFrom(sp, dims, i + 1, e, true)
    ensures DenseFrom(sp, dims, i, d, false) == DenseFrom(sp, dims, i + 1, e, false)
  {
    var next := Min(dims - (sp.dims - i) + 1 + sp.numAddAxisAfterEllipsis, dims);
    e := Fill(d, dims, next);
  }

  /** A real entry that the unchecked expansion keeps in range is one the
      checked expansion accepts. */
  lemma RealStep(sp: SparseSpec, dims: nat, i: nat, d: DenseSpec) returns (e: DenseSpec)
    requires SparseOk(sp) && DenseShapeOk(d, dims) && d.fullIndex <= dims && !d.outOfRange && GatherOk(d, dims)
    requires i < sp.dims && !Bit(sp.masks.ellipsis, i) && !Bit(sp.masks.newAxis, i)
    requires !DenseFrom(sp, dims, i, d, false).value.outOfRange
    ensures DenseShapeOk(e, dims) && e.fullIndex <= dims && !e.outOfRange && GatherOk(e, dims)
    ensures DenseFrom(sp, dims, i, d, true) == DenseFrom(sp, dims, i + 1, e, true)
    ensures DenseFrom(sp, dims, i, d, false) == DenseFrom(sp, dims, i + 1, e, false)
  {
    e := RealEntry(sp, dims, i, d);
    assert d.fullIndex < dims;
  }

  /** `foo[0:1, 0:1]`: two real entries, no masks. */
  function OverrunSpec(): SparseSpec {
    MakeSparse([0, 0], [1, 1], [1, 1], Masks(0, 0, 0, 0, 0))
  }

  lemma OverrunSpecFacts()
    ensures var sp := OverrunSpec();
      && SparseOk(sp) && sp.dims == 3 && sp.numAddAxisAfterEllipsis == 0
      && sp.begin == [0, 0] && sp.end == [1, 1] && sp.strides == [1, 1]
      && Bit(sp.masks.ellipsis, 2)
      && !Bit(sp.masks.ellipsis, 0) && !Bit(sp.masks.newAxis, 0) && !Bit(sp.masks.shrink, 0)
      && !Bit(sp.masks.begin, 0) && !Bit(sp.masks.end, 0)
      && !Bit(sp.masks.ellipsis, 1) && !Bit(sp.masks.newAxis, 1) && !Bit(sp.masks.shrink, 1)
      && !Bit(sp.masks.begin, 1) && !Bit(sp.masks.end, 1)
  {
    var masks := Masks(0, 0, 0, 0, 0);
    assert !EllipsisBefore(masks.ellipsis, 2);
    NoNewAxisCount(masks, 2);
  }

  /** As written, a rank-1 input sliced with `OverrunSpec` has its second
      entry written past the dense arrays and gathered from dense dimension 1,
      which the input does not have. */
  lemma DenseOverrunAsWritten()
    ensures BuildDenseSpecAsWritten(OverrunSpec(), 1).outOfRange
    ensures BuildDenseSpecAsWritten(OverrunSpec(), 1).gather == [0, 1]
  {
    var sp := OverrunSpec();
    var dA := DenseSpec(1, [0], [1], [1], [false], [false], [false], [0], false);
    var dB := DenseSpec(2, [0], [1], [1], [false], [false], [false], [0, 1], true);
    OverrunFirstEntry();
    OverrunSecondEntry();
    OverrunSpecFacts();
    assert Fill(dB, 1, 1) == dB;
    assert DenseFrom(sp, 1, 2, dB, false) == Ok(dB);
  }

  lemma OverrunFirstEntry()
    ensures DenseFrom(OverrunSpec(), 1, 0, InitialDense(1), false) ==
            DenseFrom(OverrunSpec(), 1, 1, DenseSpec(1, [0], [1], [1], [false], [false], [false], [0], false), false)
  {
    OverrunSpecFacts();
    var sp := OverrunSpec();
    var d0 := InitialDense(1);
    var x0 := d0.(fullIndex := 1, begin := Write(d0.begin, 0, sp.begin[0]), end := Write(d0.end, 0, sp.end[0]),
                  strides := Write(d0.strides, 0, sp.strides[0]), gather := d0.gather + [0], outOfRange := false);
    assert x0 == DenseSpec(1, [0], [1], [1], [false], [false], [false], [0], false);
  }

  lemma OverrunSecondEntry()
    ensures DenseFrom(OverrunSpec(), 1, 1, DenseSpec(1, [0], [1], [1], [false], [false], [false], [0], false), false) ==
            DenseFrom(OverrunSpec(), 1, 2, DenseSpec(2, [0], [1], [1], [false], [false], [false], [0, 1], true), false)
  {
    OverrunSpecFacts();
    var sp := OverrunSpec();
    var dA := DenseSpec(1, [0], [1], [1], [false], [false], [false], [0], false);
    var x1 := dA.(fullIndex := 2, begin := Write(dA.begin, 1, sp.begin[1]), end := Write(dA.end, 1, sp.end[1]),
                  strides := Write(dA.strides, 1, sp.strides[1]), gather := dA.gather + [1], outOfRange := true);
    assert x1 == DenseSpec(2, [0], [1], [1], [false], [false], [false], [0, 1], true);
  }

  /** With the check, the same specification is rejected. */
  lemma DenseOverrunRejected()
    ensures BuildDenseSpec(OverrunSpec(), 1).Err?
  {
    OverrunSpecFacts();
    var sp := OverrunSpec();
    var d0 := InitialDense(1);
    var x0 := d0.(fullIndex := 1, begin := Write(d0.begin, 0, sp.begin[0]), end := Write(d0.end, 0, sp.end[0]),
                  strides := Write(d0.strides, 0, sp.strides[0]), gather := d0.gather + [0], outOfRange := false);
    assert DenseFrom(sp, 1, 0, d0, true) == DenseFrom(sp, 1, 1, x0, true);
  }

  /** With no masks and one entry per dimension, the dense spec is the sparse
      spec: same begin, end and strides, no mask bits, each dimension gathered
      once, in order. */
  lemma {:induction false} PlainSpecIsDense(begin: seq<int>, end: seq<int>, strides: seq<int>)
    requires |begin| == |end| == |strides| < 32
    ensures var sp := MakeSparse(begin, end, strides, Masks(0, 0, 0, 0, 0));
            var r := BuildDenseSpec(sp, |begin|);
            && r.Ok?
            && r.value.begin == begin && r.value.end == end && r.value.strides == strides
            && (forall j :: 0 <= j < |begin| ==> !r.value.beginMask[j] && !r.value.endMask[j] && !r.value.shrinkMask[j])
            && r.value.gather == seq(|begin|, k => k)
  {
    var masks := Masks(0, 0, 0, 0, 0);
    var n := |begin|;
    assert !EllipsisBefore(masks.ellipsis, n);
    var sp := MakeSparse(begin, end, strides, masks);
    assert NumAddAxisAfterEllipsis(masks, n) == 0 by { NoNewAxisCount(masks, n); }
    PlainFrom(sp, n, 0, InitialDense(n));
  }

  lemma {:induction false} NoNewAxisCount(masks: Masks, n: nat)
    requires masks.newAxis == 0
    ensures NumAddAxisAfterEllipsis(masks, n) == 0
  {
    if n > 0 {
      NoNewAxisCount(masks, n - 1);
    }
  }

  lemma {:induction false} PlainFrom(sp: SparseSpec, n: nat, i: nat, d: DenseSpec)
    requires SparseOk(sp) && |sp.begin| == n && sp.dims == n + 1 && sp.numAddAxisAfterEllipsis == 0
    requires sp.masks.begin == 0 && sp.masks.end == 0 && sp.masks.newAxis == 0 && sp.masks.shrink == 0
    requires forall j :: 0 <= j < n ==> !Bit(sp.masks.ellipsis, j)
    requires DenseShapeOk(d, n) && GatherOk(d, n) && !d.outOfRange && i <= n && d.fullIndex == i
    requires d.begin[..i] == sp.begin[..i] && d.end[..i] == sp.end[..i] && d.strides[..i] == sp.strides[..i]
    requires forall j :: 0 <= j < n ==> !d.beginMask[j] && !d.endMask[j] && !d.shrinkMask[j]
    requires d.gather == seq(i, k => k)
    ensures var r := DenseFrom(sp, n, i, d, true);
            && r.Ok?
            && r.value.begin == sp.begin && r.value.end == sp.end && r.value.strides == sp.strides
            && (forall j :: 0 <= j < n ==> !r.value.beginMask[j] && !r.value.endMask[j] && !r.value.shrinkMask[j])
            && r.value.gather == seq(n, k => k)
    decreases n + 1 - i
  {
    if i == n {
      assert d.begin == d.begin[..n] && sp.begin == sp.begin[..n];
      assert d.end == d.end[..n] && sp.end == sp.end[..n];
      assert d.strides == d.strides[..n] && sp.strides == sp.strides[..n];
      var d1 := Fill(d, n, Min(n - (sp.dims - i) + 1 + 0, n));
      assert d1 == d by { assert d.gather + [] == d.gather; }
      assert DenseFrom(sp, n, n + 1, d1, true) == Ok(d1);
    } else {
      assert !Bit(sp.masks.newAxis, i) && !Bit(sp.masks.shrink, i);
      assert !Bit(sp.masks.begin, i) && !Bit(sp.masks.end, i);
      var d1 := d.(fullIndex := i + 1,
                   begin := d.begin[i := sp.begin[i]],
                   end := d.end[i := sp.end[i]],
                   strides := d.strides[i := sp.strides[i]],
                   gather := d.gather + [i as int]);
      assert d1.begin[..i + 1] == sp.begin[..i + 1] by {
        assert d1.begin[..i] == d.begin[..i];
      }
      assert d1.end[..i + 1] == sp.end[..i + 1] by {
        assert d1.end[..i] == d.end[..i];
      }
      assert d1.strides[..i + 1] == sp.strides[..i + 1] by {
        assert d1.strides[..i] == d.strides[..i];
      }
      assert d1.gather == seq(i + 1, k => k);
      PlainFrom(sp, n, i + 1, d1);
    }
  }

  // ---------------------------------------------------------------------------
  // Step 3: canonical bounds and sizes, per dimension
  // ---------------------------------------------------------------------------

  /** The `canonical` lambda: a masked bound takes the whole range in the
      stride's direction; otherwise a negative index counts from the end, and
      the result is clamped to `[0, dim]` (positive stride) or `[-1, dim - 1]`
      (negative stride). `isEnd` selects the end bound. */
  function Canonical(x: int, isEnd: bool, masked: bool, stride: int, dim: nat): (r: int)
    requires stride != 0
    ensures stride > 0 ==> 0 <= r <= dim
    ensures stride < 0 ==> -1 <= r <= dim - 1
    ensures masked ==> r == (if stride > 0 then (if isEnd then dim else 0) else (if isEnd then -1 else dim - 1))
    ensures !masked && 0 <= x < dim ==> r == x
    ensures !masked && x < 0 && dim + x >= 0 ==> r == dim + x
  {
    var lo := if stride > 0 then 0 else -1;
    var hi := if stride > 0 then dim else dim - 1;
    if masked then
      (if stride > 0 then (if isEnd then hi else lo) else (if isEnd then lo else hi))
    else
      var xf := if x < 0 then dim + x else x;
      if xf < lo then lo else if xf > hi then hi else xf
  }

  /** The processing size of one dimension: zero for an empty or
      wrong-direction interval, otherwise the length over the stride, rounded
      up (with truncating division and remainder). */
  function SliceSize(begin: int, end: int, stride: int): int
    requires stride != 0
  {
    var len := end - begin;
    if len == 0 || ((len < 0) != (stride < 0)) then 0
    else TruncDiv(len, stride) + (if TruncMod(len, stride) != 0 then 1 else 0)
  }

  /** The size is the number of indices `begin, begin + stride, ...` that lie
      strictly before `end` in the stride's direction: the last one falls
      short of `end`, the next one would reach or pass it. */
  lemma SliceSizeCounts(begin: int, end: int, stride: int)
    requires stride != 0
    ensures SliceSize(begin, end, stride) >= 0
    ensures SliceSize(begin, end, stride) == 0 <==> (stride > 0 ==> end <= begin) && (stride < 0 ==> begin <= end)
    ensures var n := SliceSize(begin, end, stride);
      n > 0 ==> (&& (stride > 0 ==> begin + (n - 1) * stride < end <= begin + n * stride)
                 && (stride < 0 ==> begin + n * stride <= end < begin + (n - 1) * stride))
  {
    var len := end - begin;
    if !(len == 0 || ((len < 0) != (stride < 0))) {
      var q := Abs(len) / Abs(stride);
      var c := if Abs(len) % Abs(stride) != 0 then 1 else 0;
      CeilCount(Abs(len), Abs(stride));
      assert TruncDiv(len, stride) == q;
      TruncModNonZero(len, stride, q);
      assert SliceSize(begin, end, stride) == q + c;
      if stride < 0 {
        NegatedProducts(q + c, stride);
      }
    }
  }

  /** Covering a positive length `len` with steps of `step`: the rounded-up
      quotient `n` has `(n - 1) * step < len <= n * step`. */
  lemma CeilCount(len: int, step: int)
    requires len > 0 && step > 0
    ensures var n := len / step + (if len % step != 0 then 1 else 0);
      n > 0 && (n - 1) * step < len <= n * step
  {
    var q := len / step;
    var m := len % step;
    assert len == q * step + m;
    if m != 0 {
      assert (q + 1) * step == q * step + step;
    } else {
      assert (q - 1) * step == q * step - step;
    }
  }

  /** When the signs agree, C++'s remainder is non-zero exactly when the
      remainder of the absolute values is. */
  lemma TruncModNonZero(len: int, stride: int, q: int)
    requires stride != 0 && len != 0 && (len < 0) == (stride < 0)
    requires q == Abs(len) / Abs(stride) && TruncDiv(len, stride) == q
    ensures (TruncMod(len, stride) != 0) <==> (Abs(len) % Abs(stride) != 0)
  {
    var a := Abs(len);
    var b := Abs(stride);
    var m := a % b;
    assert a == q * b + m;
    if stride > 0 {
      assert len == a && stride == b;
      assert TruncMod(len, stride) == a - b * q;
    } else {
      assert len == -a && stride == -b;
      NegatedProducts(q, stride);
      assert TruncMod(len, stride) == -a + q * b;
    }
  }

  /** For a negative stride, multiples of the stride are the negated
      multiples of its absolute value. */
  lemma NegatedProducts(n: int, stride: int)
    requires stride < 0
    ensures n * stride == -(n * Abs(stride)) && (n - 1) * stride == -((n - 1) * Abs(stride))
  {
  }

  /** Every index a canonical slice visits lies inside the dimension. */
  lemma SliceStaysInBounds(begin: int, end: int, stride: int, dim: nat, k: nat)
    requires stride > 0 ==> 0 <= begin <= dim && 0 <= end <= dim
    requires stride < 0 ==> -1 <= begin <= dim - 1 && -1 <= end <= dim - 1
    requires stride != 0 && k < SliceSize(begin, end, stride)
    ensures 0 <= begin + k * stride < dim
  {
    SliceSizeCounts(begin, end, stride);
    var n := SliceSize(begin, end, stride);
    if stride > 0 {
      assert k * stride <= (n - 1) * stride by { MulMono(k, n - 1, stride); }
    } else {
      assert k * (-stride) <= (n - 1) * (-stride) by { MulMono(k, n - 1, -stride); }
    }
  }

  /** One dimension after step 3: its begin, end and stride, its processing
      size, whether its size was known, and whether it takes the whole
      dimension with stride 1. */
  datatype DimOut = DimOut(begin: int, end: int, stride: int, size: int, known: bool, takeAll: bool)

  /** Step 3 for dimension `i`. */
  function ProcessDim(d: DenseSpec, shape: seq<int>, i: nat): (r: Result<DimOut, string>)
    requires DenseShapeOk(d, |shape|) && i < |shape| && shape[i] >= -1
    ensures d.strides[i] == 0 ==> r.Err?
    ensures r.Ok? ==> r.value.stride == d.strides[i] != 0 && r.value.known == (shape[i] != -1)
    ensures r.Ok? && !r.value.known ==> r.value.size == (if d.shrinkMask[i] then 1 else -1)
    ensures r.Ok? && r.value.known ==> r.value.size >= 0
    // a shrunk dimension must name an index inside the dimension, with a positive stride
    ensures d.shrinkMask[i] && shape[i] >= 0 && d.strides[i] != 0 ==>
      (r.Ok? <==> d.strides[i] > 0 && -shape[i] <= d.begin[i] < shape[i])
    ensures r.Ok? && r.value.known && d.shrinkMask[i] ==>
      r.value.end == r.value.begin + 1 && 0 <= r.value.begin < shape[i] && r.value.size == 1
    // otherwise the bounds are canonical
    ensures r.Ok? && r.value.known && !d.shrinkMask[i] ==>
      r.value.begin == Canonical(d.begin[i], false, d.beginMask[i], d.strides[i], shape[i]) &&
      r.value.end == Canonical(d.end[i], true, d.endMask[i], d.strides[i], shape[i]) &&
      r.value.size == SliceSize(r.value.begin, r.value.end, r.value.stride)
    ensures r.Ok? && r.value.known ==>
      r.value.takeAll == (r.value.stride == 1 && r.value.begin == 0 && r.value.end == shape[i])
  {
    var stride := d.strides[i];
    var dim := shape[i];
    if stride == 0 then Err("strides[" + Decimal.NatToString(i) + "] must be non-zero")
    else
      var shrink := d.shrinkMask[i];
      if dim == -1 then Ok(DimOut(d.begin[i], d.end[i], stride, if shrink then 1 else -1, false, false))
      else
        var xf := if d.begin[i] < 0 then dim + d.begin[i] else d.begin[i];
        var b := if shrink then xf else Canonical(d.begin[i], false, d.beginMask[i], stride, dim);
        var e := if shrink then xf + 1 else Canonical(d.end[i], true, d.endMask[i], stride, dim);
        if shrink && stride <= 0 then Err("only stride 1 allowed on non-range indexing.")
        else if shrink && (b < 0 || b >= dim) then
          Err("slice index " + Decimal.IntToString(b) + " of dimension " + Decimal.NatToString(i) + " out of bounds.")
        else
          SliceSizeCounts(b, e, stride);
          Ok(DimOut(b, e, stride, SliceSize(b, e, stride), true, stride == 1 && b == 0 && e == dim))
  }

  /** The processing shape and the canonical begin, end and strides, with the
      three optimisation flags. */
  datatype Processed = Processed(processing: seq<int>, begin: seq<int>, end: seq<int>, strides: seq<int>,
                                 isIdentity: bool, isSimpleSlice: bool, sliceDim0: bool)

  predicate ShapeOk(shape: seq<int>) {
    forall i :: 0 <= i < |shape| ==> shape[i] >= -1
  }

  /** Step 3 over the first `n` dimensions; the first failing dimension decides the error. */
  function ProcessDims(d: DenseSpec, shape: seq<int>, n: nat): (r: Result<Processed, string>)
    requires DenseShapeOk(d, |shape|) && ShapeOk(shape) && n <= |shape|
    ensures r.Ok? ==> |r.value.processing| == |r.value.begin| == |r.value.end| == |r.value.strides| == n
    decreases n
  {
    if n == 0 then Ok(Processed([], [], [], [], true, true, true))
    else match ProcessDims(d, shape, n - 1)
      case Err(msg) => Err(msg)
      case Ok(p) =>
        match ProcessDim(d, shape, n - 1)
        case Err(msg) => Err(msg)
        case Ok(o) =>
          var p1 := p.(processing := p.processing + [o.size], begin := p.begin + [o.begin],
                       end := p.end + [o.end], strides := p.strides + [o.stride]);
          if !o.known then Ok(p1)
          else Ok(p1.(isSimpleSlice := p.isSimpleSlice && o.stride == 1,
                      isIdentity := p.isIdentity && o.takeAll,
                      sliceDim0 := p.sliceDim0 && ((n - 1 == 0 && o.stride == 1) || o.takeAll)))
  }

  /** Step 3 fails exactly when some dimension fails; otherwise each entry of
      the result is that dimension's outcome. */
  lemma ProcessDimsPointwise(d: DenseSpec, shape: seq<int>, n: nat)
    requires DenseShapeOk(d, |shape|) && ShapeOk(shape) && n <= |shape|
    ensures ProcessDims(d, shape, n).Err? <==> exists i :: 0 <= i < n && ProcessDim(d, shape, i).Err?
    ensures var r := ProcessDims(d, shape, n);
      r.Ok? ==> forall i :: 0 <= i < n ==>
        (ProcessDim(d, shape, i).Ok? &&
         r.value.processing[i] == ProcessDim(d, shape, i).value.size &&
         r.value.begin[i] == ProcessDim(d, shape, i).value.begin &&
         r.value.end[i] == ProcessDim(d, shape, i).value.end &&
         r.value.strides[i] == ProcessDim(d, shape, i).value.stride)
  {
    ProcessDimsFails(d, shape, n);
    if ProcessDims(d, shape, n).Ok? {
      ProcessDimsValues(d, shape, n);
    }
  }

  lemma {:induction false} ProcessDimsFails(d: DenseSpec, shape: seq<int>, n: nat)
    requires DenseShapeOk(d, |shape|) && ShapeOk(shape) && n <= |shape|
    ensures ProcessDims(d, shape, n).Err? <==> exists i :: 0 <= i < n && ProcessDim(d, shape, i).Err?
    decreases n
  {
    if n > 0 {
      ProcessDimsFails(d, shape, n - 1);
    }
  }

  lemma {:induction false} ProcessDimsValues(d: DenseSpec, shape: seq<int>, n: nat)
    requires DenseShapeOk(d, |shape|) && ShapeOk(shape) && n <= |shape|
    requires ProcessDims(d, shape, n).Ok?
    ensures var r := ProcessDims(d, shape, n);
      forall i :: 0 <= i < n ==>
        (ProcessDim(d, shape, i).Ok? &&
         r.value.processing[i] == ProcessDim(d, shape, i).value.size &&
         r.value.begin[i] == ProcessDim(d, shape, i).value.begin &&
         r.value.end[i] == ProcessDim(d, shape, i).value.end &&
         r.value.strides[i] == ProcessDim(d, shape, i).value.stride)
    decreases n
  {
    if n > 0 {
      ProcessDimsValues(d, shape, n - 1);
    }
  }

  /** `is_identity` holds exactly when every dimension of known size is taken
      whole with stride 1, and `is_simple_slice` when every such dimension
      has stride 1. */
  lemma ProcessDimsFlags(d: DenseSpec, shape: seq<int>, n: nat)
    requires DenseShapeOk(d, |shape|) && ShapeOk(shape) && n <= |shape|
    requires ProcessDims(d, shape, n).Ok?
    ensures forall i :: 0 <= i < n ==> ProcessDim(d, shape, i).Ok?
    ensures ProcessDims(d, shape, n).value.isIdentity <==>
      forall i :: 0 <= i < n && shape[i] != -1 ==> ProcessDim(d, shape, i).value.takeAll
    ensures ProcessDims(d, shape, n).value.isSimpleSlice <==>
      forall i :: 0 <= i < n && shape[i] != -1 ==> d.strides[i] == 1
    ensures ProcessDims(d, shape, n).value.sliceDim0 <==>
      forall i :: 0 <= i < n && shape[i] != -1 ==> (i == 0 && d.strides[i] == 1) || ProcessDim(d, shape, i).value.takeAll
  {
    ProcessDimsPointwise(d, shape, n);
    IdentityFlag(d, shape, n);
    SimpleSliceFlag(d, shape, n);
    SliceDim0Flag(d, shape, n);
  }

  lemma {:induction false} IdentityFlag(d: DenseSpec, shape: seq<int>, n: nat)
    requires DenseShapeOk(d, |shape|) && ShapeOk(shape) && n <= |shape|
    requires ProcessDims(d, shape, n).Ok? && forall i :: 0 <= i < n ==> ProcessDim(d, shape, i).Ok?
    ensures ProcessDims(d, shape, n).value.isIdentity <==>
      forall i :: 0 <= i < n && shape[i] != -1 ==> ProcessDim(d, shape, i).value.takeAll
    decreases n
  {
    if n > 0 {
      IdentityFlag(d, shape, n - 1);
    }
  }

  lemma {:induction false} SimpleSliceFlag(d: DenseSpec, shape: seq<int>, n: nat)
    requires DenseShapeOk(d, |shape|) && ShapeOk(shape) && n <= |shape|
    requires ProcessDims(d, shape, n).Ok? && forall i :: 0 <= i < n ==> ProcessDim(d, shape, i).Ok?
    ensures ProcessDims(d, shape, n).value.isSimpleSlice <==>
      forall i :: 0 <= i < n && shape[i] != -1 ==> d.strides[i] == 1
    decreases n
  {
    if n > 0 {
      SimpleSliceFlag(d, shape, n - 1);
    }
  }

  lemma {:induction false} SliceDim0Flag(d: DenseSpec, shape: seq<int>, n: nat)
    requires DenseShapeOk(d, |shape|) && ShapeOk(shape) && n <= |shape|
    requires ProcessDims(d, shape, n).Ok? && forall i :: 0 <= i < n ==> ProcessDim(d, shape, i).Ok?
    ensures ProcessDims(d, shape, n).value.sliceDim0 <==>
      forall i :: 0 <= i < n && shape[i] != -1 ==> (i == 0 && d.strides[i] == 1) || ProcessDim(d, shape, i).value.takeAll
    decreases n
  {
    if n > 0 {
      SliceDim0Flag(d, shape, n - 1);
    }
  }

  // ---------------------------------------------------------------------------
  // Step 4 and the whole validation
  // ---------------------------------------------------------------------------

  /** Whether a gather entry contributes a dimension to the final shape: a
      dense index or a new axis does, the shrink marker does not. */
  predicate Kept(g: int) {
    g >= 0 || g == NewAxis
  }

  /** The positions of the gather entries that contribute, ascending. */
  function KeptPositions(gather: seq<int>): (r: seq<nat>)
    ensures forall j :: 0 <= j < |r| ==> r[j] < |gather| && Kept(gather[r[j]])
    ensures forall k :: 0 <= k < |gather| && Kept(gather[k]) ==> k in r
    ensures forall i, j :: 0 <= i < j < |r| ==> r[i] < r[j]
  {
    if |gather| == 0 then []
    else KeptPositions(gather[..|gather| - 1]) + (if Kept(gather[|gather| - 1]) then [|gather| - 1] else [])
  }

  /** Step 4: a gathered dimension contributes its processing size, a new
      axis contributes 1, a shrunk dimension contributes nothing. */
  function FinalShape(gather: seq<int>, processing: seq<int>): (r: seq<int>)
    requires forall k :: 0 <= k < |gather| && gather[k] >= 0 ==> gather[k] < |processing|
    ensures |r| <= |gather|
    ensures (forall k :: 0 <= k < |gather| ==> gather[k] >= 0) ==>
      |r| == |gather| && forall k :: 0 <= k < |gather| ==> r[k] == processing[gather[k]]
  {
    if |gather| == 0 then []
    else
      var g := gather[|gather| - 1];
      FinalShape(gather[..|gather| - 1], processing) +
      (if g >= 0 then [processing[g]] else if g == NewAxis then [1] else [])
  }

  /** The size a contributing gather entry gives the final shape. */
  function KeptSize(g: int, processing: seq<int>): int
    requires Kept(g) && (g >= 0 ==> g < |processing|)
  {
    if g == NewAxis then 1 else processing[g]
  }

  /** The final shape has one dimension per contributing gather entry, in
      gather order: the processing size of a dense index, 1 for a new axis. */
  lemma {:induction false} FinalShapeSpec(gather: seq<int>, processing: seq<int>)
    requires forall k :: 0 <= k < |gather| && gather[k] >= 0 ==> gather[k] < |processing|
    ensures |FinalShape(gather, processing)| == |KeptPositions(gather)|
    ensures forall j :: 0 <= j < |KeptPositions(gather)| ==>
      FinalShape(gather, processing)[j] == KeptSize(gather[KeptPositions(gather)[j]], processing)
  {
    if |gather| > 0 {
      var n := |gather| - 1;
      var init := gather[..n];
      FinalShapeSpec(init, processing);
      var ks := KeptPositions(init);
      var fs := FinalShape(init, processing);
      var g := gather[n];
      var last := if g >= 0 then [processing[g]] else if g == NewAxis then [1] else [];
      var kl: seq<nat> := if Kept(g) then [n] else [];
      assert FinalShape(gather, processing) == fs + last;
      assert KeptPositions(gather) == ks + kl;
      assert |last| == |kl|;
      forall j | 0 <= j < |ks + kl| ensures (fs + last)[j] == KeptSize(gather[(ks + kl)[j]], processing) {
        if j < |ks| {
          assert (fs + last)[j] == fs[j] && (ks + kl)[j] == ks[j];
          assert init[ks[j]] == gather[ks[j]];
        } else {
          assert (fs + last)[j] == last[0] && (ks + kl)[j] == n;
        }
      }
    }
  }

  /** What a successful validation reports. */
  datatype SliceResult = SliceResult(processing: seq<int>, final: seq<int>,
                                     begin: seq<int>, end: seq<int>, strides: seq<int>,
                                     isIdentity: bool, isSimpleSlice: bool, sliceDim0: bool)

  /** Whether begin, end and strides are vectors of one equal length below 32. */
  predicate VectorsOk(b: IndexTensor, e: IndexTensor, st: IndexTensor) {
    && |b.shape| == 1 && |e.shape| == 1 && |st.shape| == 1
    && b.shape[0] == e.shape[0] == st.shape[0] && b.shape[0] < 32
  }

  /** `ValidateStridedSliceOp` over an input shape whose unknown dimensions
      are -1. A begin tensor of any type but int32 and int64 is a fatal error
      in the source; here it is an error result. The dense spec is built with
      the bounds check on real entries. */
  function ValidateStridedSlice(b: IndexTensor, e: IndexTensor, st: IndexTensor,
                                shape: seq<int>, masks: Masks): (r: Result<SliceResult, string>)
    requires TensorOk(b) && TensorOk(e) && TensorOk(st) && ShapeOk(shape)
    ensures !VectorsOk(b, e, st) ==> r.Err?
    ensures MultipleEllipses(masks.ellipsis) ==> r.Err?
    ensures b.dtype == OtherType ==> r.Err?
    ensures r.Ok? ==>
      && |r.value.processing| == |r.value.begin| == |r.value.end| == |r.value.strides| == |shape|
      && (forall i :: 0 <= i < |shape| ==> r.value.strides[i] != 0)
      && (forall i :: 0 <= i < |shape| && shape[i] >= 0 ==> r.value.processing[i] >= 0)
    // the output shape is step 4 over the dense spec's gather list
    ensures r.Ok? ==>
      && VectorsOk(b, e, st)
      && BuildDenseSpec(MakeSparse(b.values, e.values, st.values, masks), |shape|).Ok?
      && r.value.final == FinalShape(BuildDenseSpec(MakeSparse(b.values, e.values, st.values, masks), |shape|).value.gather,
                                     r.value.processing)
  {
    if !VectorsOk(b, e, st) then
      Err("Expected begin, end, and strides to be 1D equal size tensors")
    else if MultipleEllipses(masks.ellipsis) then
      Err("Multiple ellipses in slice spec not allowed")
    else if b.dtype == OtherType then
      Err("begin must be either int32 or int64")
    else
      var sp := MakeSparse(b.values, e.values, st.values, masks);
      match BuildDenseSpec(sp, |shape|)
      case Err(msg) => Err(msg)
      case Ok(dense) =>
        match ProcessDims(dense, shape, |shape|)
        case Err(msg) => Err(msg)
        case Ok(p) =>
          ProcessDimsPointwise(dense, shape, |shape|);
          Ok(SliceResult(p.processing, FinalShape(dense.gather, p.processing),
                         p.begin, p.end, p.strides, p.isIdentity, p.isSimpleSlice, p.sliceDim0))
  }

  /** The dense spec a successful validation used. */
  function DenseOf(b: IndexTensor, e: IndexTensor, st: IndexTensor, shape: seq<int>, masks: Masks): (r: Result<DenseSpec, string>)
    requires TensorOk(b) && TensorOk(e) && TensorOk(st) && VectorsOk(b, e, st)
  {
    BuildDenseSpec(MakeSparse(b.values, e.values, st.values, masks), |shape|)
  }

  /** Every element a successful slice reads along a dimension of known size
      lies inside that dimension. */
  lemma ValidatedSliceInBounds(b: IndexTensor, e: IndexTensor, st: IndexTensor, shape: seq<int>, masks: Masks, i: nat, k: nat)
    requires TensorOk(b) && TensorOk(e) && TensorOk(st) && ShapeOk(shape)
    requires ValidateStridedSlice(b, e, st, shape, masks).Ok?
    requires i < |shape| && shape[i] >= 0
    requires k < ValidateStridedSlice(b, e, st, shape, masks).value.processing[i]
    ensures var r := ValidateStridedSlice(b, e, st, shape, masks).value;
            0 <= r.begin[i] + k * r.strides[i] < shape[i]
  {
    var dense := DenseOf(b, e, st, shape, masks).value;
    ProcessDimsPointwise(dense, shape, |shape|);
    var o := ProcessDim(dense, shape, i).value;
    if dense.shrinkMask[i] {
      assert k == 0;
    } else {
      SliceStaysInBounds(o.begin, o.end, o.stride, shape[i], k);
    }
  }

  /** A successful identity slice over a fully known shape keeps the shape. */
  lemma IdentityKeepsShape(b: IndexTensor, e: IndexTensor, st: IndexTensor, shape: seq<int>, masks: Masks)
    requires TensorOk(b) && TensorOk(e) && TensorOk(st) && ShapeOk(shape)
    requires forall i :: 0 <= i < |shape| ==> shape[i] >= 0
    requires ValidateStridedSlice(b, e, st, shape, masks).Ok?
    requires ValidateStridedSlice(b, e, st, shape, masks).value.isIdentity
    ensures ValidateStridedSlice(b, e, st, shape, masks).value.processing == shape
  {
    var dense := DenseOf(b, e, st, shape, masks).value;
    ProcessDimsFlags(dense, shape, |shape|);
    ProcessDimsPointwise(dense, shape, |shape|);
    var r := ValidateStridedSlice(b, e, st, shape, masks).value;
    forall i | 0 <= i < |shape| ensures r.processing[i] == shape[i] {
      var o := ProcessDim(dense, shape, i).value;
      assert o.takeAll;
      if !dense.shrinkMask[i] {
        SliceSizeCounts(o.begin, o.end, o.stride);
      }
    }
  }

  /** With no masks and one entry per dimension, the final shape is the
      processing shape. */
  lemma PlainSliceFinalShape(b: IndexTensor, e: IndexTensor, st: IndexTensor, shape: seq<int>)
    requires TensorOk(b) && TensorOk(e) && TensorOk(st) && ShapeOk(shape)
    requires VectorsOk(b, e, st) && b.shape[0] == |shape|
    requires ValidateStridedSlice(b, e, st, shape, Masks(0, 0, 0, 0, 0)).Ok?
    ensures var r := ValidateStridedSlice(b, e, st, shape, Masks(0, 0, 0, 0, 0)).value;
            r.final == r.processing
  {
    PlainSpecIsDense(b.values, e.values, st.values);
  }
}
