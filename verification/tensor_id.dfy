/** Parsing of tensor names of the form `name` or `name:digits`. */
module TensorId {
  import opened Decimal

  /** A tensor reference: the producing node's name and its output index. */
  datatype TensorId = TensorId(node: string, index: nat)

  /** `name` splits at position `p` into a non-empty node name, a colon, and a
      non-empty run of digits. */
  predicate SplitsAt(name: string, p: int) {
    1 <= p && p + 1 < |name| && name[p] == ':' && AllDigits(name[p + 1..])
  }

  /** Two split positions of one name agree: the part after the colon holds no colon. */
  lemma SplitUnique(name: string, p: int, q: int)
    requires SplitsAt(name, p) && SplitsAt(name, q)
    ensures p == q
  {
    if p < q {
    } else if q < p {
    }
  }

  /** Where the backwards scan over trailing digits stops: it never consumes
      the first character. */
  function DigitRunStart(name: string, q: nat): (r: nat)
    requires 1 <= q <= |name|
    requires AllDigits(name[q..])
    ensures 1 <= r <= q && AllDigits(name[r..])
    ensures r == 1 || !IsDigit(name[r - 1])
    decreases q
  {
    if q > 1 && IsDigit(name[q - 1]) then
      assert name[q - 1..] == [name[q - 1]] + name[q..];
      DigitRunStart(name, q - 1)
    else q
  }

  /** `ParseTensorName`: `name:digits` gives the name and the index; any other
      string is the name of output 0. */
  function ParseTensorName(name: string): (r: TensorId)
    ensures forall p :: SplitsAt(name, p) ==> r == TensorId(name[..p], Value(name[p + 1..]))
    ensures (forall p :: !SplitsAt(name, p)) ==> r == TensorId(name, 0)
  {
    if |name| == 0 then TensorId(name, 0)
    else
      var q := DigitRunStart(name, |name|);
      if q >= 2 && name[q - 1] == ':' && q < |name| then
        assert SplitsAt(name, q - 1);
        assert forall p :: SplitsAt(name, p) ==> p == q - 1 by {
          forall p | SplitsAt(name, p) ensures p == q - 1 { SplitUnique(name, p, q - 1); }
        }
        TensorId(name[..q - 1], Value(name[q..]))
      else
        assert forall p :: !SplitsAt(name, p);
        TensorId(name, 0)
  }

  /** The scan as the source performs it: backwards over trailing digits,
      accumulating the index with a growing power of ten, then checking for
      the colon. */
  method ParseTensorNameScan(name: string) returns (id: TensorId)
    ensures id == ParseTensorName(name)
  {
    var p: int := |name| - 1;
    var index: nat := 0;
    var mul: nat := 1;
    while p > 0 && IsDigit(name[p])
      invariant -1 <= p < |name|
      invariant AllDigits(name[p + 1..])
      invariant index == Value(name[p + 1..])
      invariant mul == Pow10(|name| - 1 - p)
      decreases p
    {
      assert name[p..] == [name[p]] + name[p + 1..];
      ValuePrepend(name[p], name[p + 1..]);
      index := index + DigitValue(name[p]) * mul;
      mul := mul * 10;
      p := p - 1;
    }
    if p > 0 && name[p] == ':' && mul > 1 {
      assert SplitsAt(name, p);
      id := TensorId(name[..p], index);
    } else {
      assert forall j :: !SplitsAt(name, j);
      id := TensorId(name, 0);
    }
  }

  /** Formatting a node name and an output index as `node:index`
      and parsing it gives both back. */
  lemma ParseFormatted(node: string, index: nat)
    requires |node| >= 1
    ensures ParseTensorName(node + ":" + NatToString(index)) == TensorId(node, index)
  {
    var s := node + ":" + NatToString(index);
    assert s[..|node|] == node;
    assert s[|node| + 1..] == NatToString(index);
    assert SplitsAt(s, |node|);
    ValueOfNatToString(index);
  }
}
