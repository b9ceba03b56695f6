/** The checks and the batch arithmetic of Keras `multi_gpu_model`: device
    name normalisation, the required devices, and how `get_slice` cuts a
    batch into one slice per replica. Building the replicated model is not
    part of this model. */
module TrainingUtils {
  import opened Wrappers
  import Strings
  import Decimal
  import CppInt

  const DeviceMarker: string := "device:"

  datatype MultiGpuError =
    | TooFewGpus(gpus: int)
    /** The IndexError of `split('device:')[1]` on a name without the marker. */
    | NoDeviceMarker(name: string)
    | MissingDevices(gpus: int, target: seq<string>, available: seq<string>)

  /** The text between the first and the second "device:" of `low`, or up
      to its end. */
  predicate IsSecondPiece(piece: string, low: string) {
    exists k :: (
      && 0 <= k && k + |DeviceMarker| <= |low|
      && !Strings.IsSubstring(DeviceMarker, low[..k])
      && Strings.OccursAt(DeviceMarker, low, k)
      && !Strings.IsSubstring(DeviceMarker, piece)
      && Strings.IsPrefix(piece, low[k + |DeviceMarker|..])
      && (piece == low[k + |DeviceMarker|..] || Strings.IsPrefix(piece + DeviceMarker, low[k + |DeviceMarker|..])))
  }

  lemma SecondPiece(low: string)
    requires |Strings.Split(low, DeviceMarker)| >= 2
    ensures IsSecondPiece(Strings.Split(low, DeviceMarker)[1], low)
  {
    var parts := Strings.Split(low, DeviceMarker);
    Strings.SplitTail(low, DeviceMarker);
    var k := |parts[0]|;
    var rest := low[k + |DeviceMarker|..];
    Strings.JoinSplit(rest, DeviceMarker);
    assert parts[1] == Strings.Split(rest, DeviceMarker)[0];
  }

  /** `_normalize_device_name`: '/' and the lower-cased text between the
      first "device:" and the next one. */
  function NormalizeDeviceName(name: string): (r: Result<string, MultiGpuError>)
    ensures r.Err? <==> !Strings.IsSubstring(DeviceMarker, Strings.Lower(name))
    ensures r.Err? ==> r.error == NoDeviceMarker(name)
    ensures r.Ok? ==> |r.value| >= 1 && r.value[0] == '/' && IsSecondPiece(r.value[1..], Strings.Lower(name))
  {
    var low := Strings.Lower(name);
    var parts := Strings.Split(low, DeviceMarker);
    if |parts| < 2 then Err(NoDeviceMarker(name))
    else
      SecondPiece(low);
      assert ("/" + parts[1])[1..] == parts[1];
      Ok("/" + parts[1])
  }

  /** No position before the end of `p` starts "device:" in
      `p + "device:" + t` when `p` holds none. */
  lemma MarkerNotBefore(p: string, t: string)
    requires !Strings.IsSubstring(DeviceMarker, p)
    ensures forall j :: 0 <= j < |p| ==> !Strings.OccursAt(DeviceMarker, p + DeviceMarker + t, j)
  {
    var s := p + DeviceMarker + t;
    forall j | 0 <= j < |p| ensures !Strings.OccursAt(DeviceMarker, s, j) {
      if j + |DeviceMarker| <= |p| {
        assert s[j..j + |DeviceMarker|] == p[j..j + |DeviceMarker|];
        assert !Strings.OccursAt(DeviceMarker, p, j);
      } else if j + |DeviceMarker| <= |s| {
        assert s[j + 6] == DeviceMarker[j + 6 - |p|];
      }
    }
  }

  /** A device type shorter than "device" followed by `:index` holds no
      "device:". */
  lemma NoMarkerInTypeAndIndex(kind: string, index: nat)
    requires |kind| < 6 && ':' !in kind
    ensures !Strings.IsSubstring(DeviceMarker, kind + ":" + Decimal.NatToString(index))
  {
    var digits := Decimal.NatToString(index);
    var s := kind + ":" + digits;
    Decimal.DigitsHaveNoSeparator(digits, ':');
    forall j | 0 <= j <= |s| ensures !Strings.OccursAt(DeviceMarker, s, j) {
      if j + |DeviceMarker| <= |s| {
        assert s[j + 6] == digits[j + 6 - |kind| - 1];
      }
    }
  }

  /** Splitting at the only "device:" gives the two sides. */
  lemma SplitAtOnlyMarker(p: string, t: string)
    requires !Strings.IsSubstring(DeviceMarker, p) && !Strings.IsSubstring(DeviceMarker, t)
    ensures Strings.Split(p + DeviceMarker + t, DeviceMarker) == [p, t]
  {
    var s := p + DeviceMarker + t;
    MarkerNotBefore(p, t);
    assert Strings.OccursAt(DeviceMarker, s, |p|);
    var i := Strings.Find(s, DeviceMarker).value;
    assert i == |p|;
    assert s[i + |DeviceMarker|..] == t;
    assert s[..i] == p;
    assert Strings.Find(t, DeviceMarker).None?;
  }

  /** Lower-casing a full device name. */
  lemma LowerDeviceName(prefix: string, kind: string, digits: string)
    requires Decimal.AllDigits(digits)
    ensures Strings.Lower(prefix + DeviceMarker + kind + ":" + digits)
      == Strings.Lower(prefix) + DeviceMarker + (Strings.Lower(kind) + ":" + digits)
  {
    Strings.LowerNoUpper(digits);
    LowerSeparators();
    LowerJoined(prefix, DeviceMarker, kind, ":", digits);
  }

  lemma LowerSeparators()
    ensures Strings.Lower(DeviceMarker) == DeviceMarker && Strings.Lower(":") == ":"
  {
    Strings.LowerNoUpper(DeviceMarker);
    Strings.LowerNoUpper(":");
  }

  lemma LowerJoined(a: string, m: string, k: string, c: string, d: string)
    requires Strings.Lower(m) == m && Strings.Lower(c) == c && Strings.Lower(d) == d
    ensures Strings.Lower(a + m + k + c + d) == Strings.Lower(a) + m + (Strings.Lower(k) + c + d)
  {
    var la, lk := Strings.Lower(a), Strings.Lower(k);
    calc {
      Strings.Lower(a + m + k + c + d);
      == { Strings.LowerConcat(a + m + k + c, d); }
      Strings.Lower(a + m + k + c) + d;
      == { Strings.LowerConcat(a + m + k, c); }
      Strings.Lower(a + m + k) + c + d;
      == { Strings.LowerConcat(a + m, k); }
      Strings.Lower(a + m) + lk + c + d;
      == { Strings.LowerConcat(a, m); }
      la + m + lk + c + d;
      == { Assoc5(la, m, lk, c, d); }
      la + m + (lk + c + d);
    }
  }

  lemma Assoc5(a: string, m: string, k: string, c: string, d: string)
    ensures a + m + k + c + d == a + m + (k + c + d)
  {
  }

  lemma LowerKeepsColonOut(s: string)
    requires ':' !in s
    ensures ':' !in Strings.Lower(s)
  {
    var r := Strings.Lower(s);
    forall i | 0 <= i < |r| ensures r[i] != ':' {
      assert r[i] == Strings.LowerChar(s[i]);
    }
  }

  /** The full name of the local CPU or of the local GPU `k`. */
  function FullName(prefix: string, kind: string, k: nat): string {
    prefix + DeviceMarker + kind + ":" + Decimal.NatToString(k)
  }

  /** The full name of a local device normalises to its short form, for
      instance `/job:localhost/replica:0/task:0/device:GPU:1` to `/gpu:1`. */
  lemma {:induction false} NormalizeCanonical(prefix: string, kind: string, index: nat)
    requires !Strings.IsSubstring(DeviceMarker, Strings.Lower(prefix))
    requires |kind| < 6 && ':' !in kind
    ensures NormalizeDeviceName(FullName(prefix, kind, index))
      == Ok("/" + Strings.Lower(kind) + ":" + Decimal.NatToString(index))
  {
    var digits := Decimal.NatToString(index);
    var lk := Strings.Lower(kind);
    var tail := lk + ":" + digits;
    var name := prefix + DeviceMarker + kind + ":" + digits;
    LowerDeviceName(prefix, kind, digits);
    LowerKeepsColonOut(kind);
    NoMarkerInTypeAndIndex(lk, index);
    SplitAtOnlyMarker(Strings.Lower(prefix), tail);
    assert Strings.Split(Strings.Lower(name), DeviceMarker) == [Strings.Lower(prefix), tail];
    assert "/" + lk + ":" + digits == "/" + tail;
  }

  /** `['/cpu:0'] + ['/gpu:%d' % i for i in range(gpus)]`. */
  function TargetDevices(gpus: nat): (r: seq<string>)
    ensures |r| == gpus + 1 && r[0] == "/cpu:0"
    ensures forall i :: 0 <= i < gpus ==> r[i + 1] == "/gpu:" + Decimal.NatToString(i)
  {
    ["/cpu:0"] + seq(gpus, i requires 0 <= i => "/gpu:" + Decimal.NatToString(i))
  }

  /** The target devices are pairwise different. */
  lemma TargetDevicesDistinct(gpus: nat)
    ensures forall i, j :: 0 <= i < j <= gpus ==> TargetDevices(gpus)[i] != TargetDevices(gpus)[j]
  {
    var t := TargetDevices(gpus);
    forall i, j | 0 <= i < j <= gpus ensures t[i] != t[j] {
      assert t[j][..2] == "/g";
      if i > 0 {
        var a := Decimal.NatToString(i - 1);
        var b := Decimal.NatToString(j - 1);
        if t[i] == t[j] {
          assert a == t[i][5..] == t[j][5..] == b;
          Decimal.NatToStringInjective(i - 1, j - 1);
        }
      } else {
        assert t[i][..2] == "/c";
      }
    }
  }

  /** `[f(x) for x in names]`, where a failure of `f` ends the list. */
  function MapAll(f: string -> Result<string, MultiGpuError>, names: seq<string>): (r: Result<seq<string>, MultiGpuError>)
    ensures r.Ok? <==> forall i :: 0 <= i < |names| ==> f(names[i]).Ok?
    ensures r.Ok? ==> |r.value| == |names| && forall i :: 0 <= i < |names| ==> f(names[i]) == Ok(r.value[i])
    ensures r.Err? ==> exists i :: 0 <= i < |names| && f(names[i]) == Err(r.error)
  {
    if |names| == 0 then Ok([])
    else
      match f(names[0])
      case Err(e) => Err(e)
      case Ok(n) =>
        var rest := MapAll(f, names[1..]);
        assert forall i :: 1 <= i < |names| ==> names[1..][i - 1] == names[i];
        if rest.Err? then rest else Ok([n] + rest.value)
  }

  /** The available names normalised, or the first failure. */
  function NormalizeAll(names: seq<string>): (r: Result<seq<string>, MultiGpuError>)
    ensures r.Ok? <==> forall i :: 0 <= i < |names| ==> NormalizeDeviceName(names[i]).Ok?
    ensures r.Ok? ==> |r.value| == |names| && forall i :: 0 <= i < |names| ==> NormalizeDeviceName(names[i]) == Ok(r.value[i])
    ensures r.Err? ==> exists i :: 0 <= i < |names| && NormalizeDeviceName(names[i]) == Err(r.error)
  {
    MapAll(NormalizeDeviceName, names)
  }

  /** The checks of `multi_gpu_model` before the model is replicated: at
      least two GPUs, and every target device among the normalised
      available ones. */
  function CheckDevices(gpus: int, available: seq<string>): (r: Result<seq<string>, MultiGpuError>)
    ensures r == Err(TooFewGpus(gpus)) <==> gpus <= 1
    ensures r.Ok? <==> (
      && gpus >= 2
      && (forall i :: 0 <= i < |available| ==> NormalizeDeviceName(available[i]).Ok?)
      && forall d :: d in TargetDevices(gpus) ==> exists i :: 0 <= i < |available| && NormalizeDeviceName(available[i]) == Ok(d))
    ensures r.Ok? ==> r.value == TargetDevices(gpus)
  {
    if gpus <= 1 then Err(TooFewGpus(gpus))
    else
      var target := TargetDevices(gpus);
      match NormalizeAll(available)
      case Err(e) => Err(e)
      case Ok(norm) =>
        ResultMembers(NormalizeDeviceName, available, norm);
        if forall d :: d in target ==> d in norm then Ok(target)
        else Err(MissingDevices(gpus, target, norm))
  }

  /** A name is among the results exactly when some input maps to it. */
  lemma ResultMembers(f: string -> Result<string, MultiGpuError>, xs: seq<string>, ys: seq<string>)
    requires |xs| == |ys| && forall i :: 0 <= i < |xs| ==> f(xs[i]) == Ok(ys[i])
    ensures forall d :: d in ys <==> exists i :: 0 <= i < |xs| && f(xs[i]) == Ok(d)
  {
    forall d | d in ys ensures exists i :: 0 <= i < |xs| && f(xs[i]) == Ok(d) {
      var i :| 0 <= i < |ys| && ys[i] == d;
      assert f(xs[i]) == Ok(ys[i]);
    }
  }

  lemma ShortCpuName()
    ensures "/" + Strings.Lower("CPU") + ":" + Decimal.NatToString(0) == "/cpu:0"
  {
    var r := Strings.Lower("CPU");
    assert r[0] == Strings.LowerChar('C') == 'c';
    assert r[1] == Strings.LowerChar('P') == 'p';
    assert r[2] == Strings.LowerChar('U') == 'u';
    assert Decimal.NatToString(0) == "0";
  }

  lemma ShortGpuName(k: nat)
    ensures "/" + Strings.Lower("GPU") + ":" + Decimal.NatToString(k) == "/gpu:" + Decimal.NatToString(k)
  {
    var r := Strings.Lower("GPU");
    assert r[0] == Strings.LowerChar('G') == 'g';
    assert r[1] == Strings.LowerChar('P') == 'p';
    assert r[2] == Strings.LowerChar('U') == 'u';
    assert r == "gpu";
  }

  lemma CpuNormalized(prefix: string)
    requires !Strings.IsSubstring(DeviceMarker, Strings.Lower(prefix))
    ensures NormalizeDeviceName(FullName(prefix, "CPU", 0)) == Ok("/cpu:0")
  {
    NormalizeCanonical(prefix, "CPU", 0);
    ShortCpuName();
  }

  lemma GpuNormalized(prefix: string, k: nat)
    requires !Strings.IsSubstring(DeviceMarker, Strings.Lower(prefix))
    ensures NormalizeDeviceName(FullName(prefix, "GPU", k)) == Ok("/gpu:" + Decimal.NatToString(k))
  {
    NormalizeCanonical(prefix, "GPU", k);
    ShortGpuName(k);
  }

  /** The full names of a machine's CPU and its `n` GPUs. */
  function Machine(prefix: string, n: nat): (r: seq<string>)
    ensures |r| == n + 1
  {
    [FullName(prefix, "CPU", 0)] + seq(n, k requires 0 <= k => FullName(prefix, "GPU", k))
  }

  /** The short name of the `i`-th device of `Machine`. */
  function ShortName(i: nat): string {
    if i == 0 then "/cpu:0" else "/gpu:" + Decimal.NatToString(i - 1)
  }

  lemma MachineNormalized(prefix: string, n: nat)
    requires !Strings.IsSubstring(DeviceMarker, Strings.Lower(prefix))
    ensures forall i :: 0 <= i <= n ==> NormalizeDeviceName(Machine(prefix, n)[i]) == Ok(ShortName(i))
  {
    var m := Machine(prefix, n);
    forall i | 0 <= i <= n ensures NormalizeDeviceName(m[i]) == Ok(ShortName(i)) {
      if i == 0 {
        CpuNormalized(prefix);
      } else {
        assert m[i] == FullName(prefix, "GPU", i - 1);
        GpuNormalized(prefix, i - 1);
      }
    }
  }

  /** When `f` maps the first entries of `xs` to `ys`, every entry of `ys`
      is the image of some entry of `xs`. */
  lemma ImagesCovered(f: string -> Result<string, MultiGpuError>, xs: seq<string>, ys: seq<string>)
    requires |ys| <= |xs| && forall j :: 0 <= j < |ys| ==> f(xs[j]) == Ok(ys[j])
    ensures forall d :: d in ys ==> exists i :: 0 <= i < |xs| && f(xs[i]) == Ok(d)
  {
    forall d | d in ys ensures exists i :: 0 <= i < |xs| && f(xs[i]) == Ok(d) {
      var j :| 0 <= j < |ys| && ys[j] == d;
      assert f(xs[j]) == Ok(ys[j]);
    }
  }

  /** The target devices are the short names of the first entries of a
      machine's listing. */
  lemma TargetsAreShortNames(gpus: nat)
    ensures forall j :: 0 <= j < |TargetDevices(gpus)| ==> TargetDevices(gpus)[j] == ShortName(j)
  {
  }

  /** Every target device is the short name of some entry of a machine
      listing its CPU and at least `gpus` GPUs. */
  lemma MachineCoversTargets(prefix: string, gpus: nat, n: nat)
    requires gpus <= n
    requires !Strings.IsSubstring(DeviceMarker, Strings.Lower(prefix))
    ensures forall d :: d in TargetDevices(gpus) ==>
      exists i :: 0 <= i < |Machine(prefix, n)| && NormalizeDeviceName(Machine(prefix, n)[i]) == Ok(d)
  {
    var available := Machine(prefix, n);
    var target := TargetDevices(gpus);
    MachineNormalized(prefix, n);
    TargetsAreShortNames(gpus);
    assert forall j :: 0 <= j < |target| ==> NormalizeDeviceName(available[j]) == Ok(target[j]);
    ImagesCovered(NormalizeDeviceName, available, target);
  }

  /** A machine listing its CPU and at least `gpus` GPUs under their full
      names passes the checks. */
  lemma CanonicalMachineAccepted(prefix: string, gpus: nat, n: nat)
    requires 2 <= gpus <= n
    requires !Strings.IsSubstring(DeviceMarker, Strings.Lower(prefix))
    ensures CheckDevices(gpus, Machine(prefix, n)) == Ok(TargetDevices(gpus))
  {
    var available := Machine(prefix, n);
    MachineNormalized(prefix, n);
    assert forall i :: 0 <= i < |available| ==> NormalizeDeviceName(available[i]).Ok?;
    MachineCoversTargets(prefix, gpus, n);
  }

  /** Rows `start` to `start + size` of the batch. */
  datatype Slice = Slice(start: int, size: int)

  /** `get_slice(data, i, parts)` on a batch of `batch` rows; the last
      replica is recognised by the enclosing `gpus`. */
  function GetSlice(batch: nat, i: nat, parts: nat, gpus: int): Slice
    requires parts > 0
  {
    var step := batch / parts;
    Slice(step * i, if i == gpus - 1 then batch - step * i else step)
  }

  /** With one slice per replica, consecutive slices meet, the first starts
      at row 0, the last ends at the batch end, and none has a negative
      size. */
  lemma SlicesTile(batch: nat, gpus: nat)
    requires gpus >= 1
    ensures GetSlice(batch, 0, gpus, gpus).start == 0
    ensures forall i :: 0 <= i < gpus - 1 ==>
      GetSlice(batch, i, gpus, gpus).start + GetSlice(batch, i, gpus, gpus).size == GetSlice(batch, i + 1, gpus, gpus).start
    ensures GetSlice(batch, gpus - 1, gpus, gpus).start + GetSlice(batch, gpus - 1, gpus, gpus).size == batch
    ensures forall i :: 0 <= i < gpus ==> GetSlice(batch, i, gpus, gpus).size >= 0
  {
    var step := batch / gpus;
    forall i | 0 <= i < gpus - 1 ensures step * i + step == step * (i + 1) {
    }
    assert step * gpus <= batch;
    MulMonoNat(gpus - 1, gpus, step);
  }

  lemma MulMonoNat(a: nat, b: nat, c: nat)
    requires a <= b
    ensures c * a <= c * b
  {
  }

  /** The replica whose slice holds row `r`. */
  function Owner(batch: nat, gpus: nat, r: nat): nat
    requires gpus >= 1
  {
    var step := batch / gpus;
    if step == 0 || r / step >= gpus - 1 then gpus - 1 else r / step
  }

  /** Row `r` lies in the slice of replica `i`. */
  predicate InSlice(batch: nat, gpus: nat, i: nat, r: nat)
    requires gpus >= 1
  {
    var s := GetSlice(batch, i, gpus, gpus);
    s.start <= r < s.start + s.size
  }

  lemma QuotientBounds(r: nat, step: nat)
    requires step > 0
    ensures step * (r / step) <= r < step * (r / step) + step
  {
  }

  /** Every row of the batch lies in the slice of its owner. */
  lemma {:induction false} OwnerHoldsRow(batch: nat, gpus: nat, r: nat)
    requires gpus >= 1 && r < batch
    ensures Owner(batch, gpus, r) < gpus && InSlice(batch, gpus, Owner(batch, gpus, r), r)
  {
    var step := batch / gpus;
    if step == 0 {
      InSliceIntro(batch, gpus, gpus - 1, r, 0);
    } else {
      var q := r / step;
      QuotientBounds(r, step);
      if q >= gpus - 1 {
        MulMonoNat(gpus - 1, q, step);
        InSliceIntro(batch, gpus, gpus - 1, r, step * (gpus - 1));
      } else {
        InSliceIntro(batch, gpus, q, r, step * q);
      }
    }
  }

  /** The slice of replica `i` starts at `start` and holds `r` when `r` is
      not before it and, for all but the last replica, is less than one
      step past it. */
  lemma InSliceIntro(batch: nat, gpus: nat, i: nat, r: nat, start: int)
    requires gpus >= 1 && i < gpus && r < batch
    requires start == (batch / gpus) * i && start <= r
    requires i != gpus - 1 ==> r < start + batch / gpus
    ensures InSlice(batch, gpus, i, r)
  {
  }

  /** No other slice holds it. */
  lemma {:induction false} OnlyOwnerHoldsRow(batch: nat, gpus: nat, r: nat, i: nat)
    requires gpus >= 1 && i < gpus && InSlice(batch, gpus, i, r)
    ensures i == Owner(batch, gpus, r)
  {
    var step := batch / gpus;
    if step > 0 {
      var q := r / step;
      QuotientBounds(r, step);
      if i < gpus - 1 {
        assert step * i <= r < step * i + step;
        CppInt.DivUnique(r, step, i, r - step * i);
      } else {
        assert step * (gpus - 1) <= r;
        if q < gpus - 1 {
          MulMonoNat(q + 1, gpus - 1, step);
        }
      }
    }
  }

  /** Every row of the batch lies in exactly one slice. */
  lemma SlicesPartition(batch: nat, gpus: nat, r: nat)
    requires gpus >= 1 && r < batch
    ensures exists i :: 0 <= i < gpus && InSlice(batch, gpus, i, r)
    ensures forall i, j :: 0 <= i < gpus && 0 <= j < gpus && InSlice(batch, gpus, i, r) && InSlice(batch, gpus, j, r) ==> i == j
  {
    OwnerHoldsRow(batch, gpus, r);
    forall i | 0 <= i < gpus && InSlice(batch, gpus, i, r) ensures i == Owner(batch, gpus, r) {
      OnlyOwnerHoldsRow(batch, gpus, r, i);
    }
  }
}
