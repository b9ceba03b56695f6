/** Two pieces of the TensorFlow Lite example generator: the command line
    of TOCO options for a test model, and the rule that decides when failed
    conversions abort the run. Graph building, the conversion itself and the
    zip archive are not part of this model. */
module GenerateExamples {
  import opened Wrappers
  import Strings
  import Decimal

  const QuantizedUint8: string := "QUANTIZED_UINT8"
  const Float: string := "FLOAT"

  // ---------------------------------------------------------------------------
  // toco_options
  // ---------------------------------------------------------------------------

  /** The IndexError of `data_types[0]` for an empty list. */
  datatype OptionsError = NoDataTypes

  function DimStrings(dims: seq<int>): (r: seq<string>)
    ensures |r| == |dims| && forall i :: 0 <= i < |dims| ==> r[i] == Decimal.IntToString(dims[i])
  {
    seq(|dims|, i requires 0 <= i < |dims| => Decimal.IntToString(dims[i]))
  }

  /** `",".join(str(y) for y in x)`. */
  function DimsString(dims: seq<int>): string {
    Strings.Join(",", DimStrings(dims))
  }

  function ShapeStrings(shapes: seq<seq<int>>): (r: seq<string>)
    ensures |r| == |shapes| && forall i :: 0 <= i < |shapes| ==> r[i] == DimsString(shapes[i])
  {
    seq(|shapes|, i requires 0 <= i < |shapes| => DimsString(shapes[i]))
  }

  /** `shape_str`: each shape's dims joined by ',', the shapes by ':'. */
  function ShapeString(shapes: seq<seq<int>>): string {
    Strings.Join(":", ShapeStrings(shapes))
  }

  /** `inference_type`: quantized exactly when the first input is. */
  function InferenceType(dataTypes: seq<string>): (r: string)
    requires |dataTypes| > 0
    ensures r == QuantizedUint8 <==> dataTypes[0] == QuantizedUint8
    ensures r != QuantizedUint8 ==> r == Float
  {
    if dataTypes[0] == QuantizedUint8 then QuantizedUint8 else Float
  }

  /** The flags of `toco_options`, in order, without their leading space. */
  function TocoFlags(dataTypes: seq<string>, inputArrays: seq<string>, outputArrays: seq<string>,
                     shapes: seq<seq<int>>, dropControlDependency: bool): seq<string>
    requires |dataTypes| > 0
  {
    [ "--input_data_types=" + Strings.Join(",", dataTypes),
      "--inference_type=" + InferenceType(dataTypes),
      "--input_format=TENSORFLOW_GRAPHDEF",
      "--output_format=TFLITE",
      "--input_arrays=" + Strings.Join(",", inputArrays),
      "--input_shapes=" + ShapeString(shapes),
      "--output_arrays=" + Strings.Join(",", outputArrays) ]
    + (if dropControlDependency then ["--drop_control_dependency"] else [])
  }

  /** `toco_options`: every flag after a space. */
  function TocoOptions(dataTypes: seq<string>, inputArrays: seq<string>, outputArrays: seq<string>,
                       shapes: seq<seq<int>>, dropControlDependency: bool): (r: Result<string, OptionsError>)
    ensures r.Err? <==> |dataTypes| == 0
  {
    if |dataTypes| == 0 then Err(NoDataTypes)
    else Ok(SpaceEach(TocoFlags(dataTypes, inputArrays, outputArrays, shapes, dropControlDependency)))
  }

  /** `" " + f` for every flag, concatenated. */
  function SpaceEach(flags: seq<string>): string {
    if |flags| == 0 then "" else " " + flags[0] + SpaceEach(flags[1..])
  }

  lemma {:induction false} SpaceEachIsJoin(flags: seq<string>)
    requires |flags| > 0
    ensures SpaceEach(flags) == Strings.Join(" ", [""] + flags)
    decreases |flags|
  {
    if |flags| == 1 {
      assert SpaceEach(flags[1..]) == "";
    } else {
      SpaceEachIsJoin(flags[1..]);
      var rest := [""] + flags[1..];
      assert ([""] + flags)[1..] == [flags[0]] + flags[1..] == flags;
      assert Strings.Join(" ", flags) == flags[0] + " " + Strings.Join(" ", flags[1..]);
      assert Strings.Join(" ", rest) == "" + " " + Strings.Join(" ", flags[1..]);
    }
  }

  /** A decimal rendering holds none of the separators. */
  lemma IntStringLacks(x: int, c: char)
    requires !Decimal.IsDigit(c) && c != '-'
    ensures c !in Decimal.IntToString(x)
  {
    var n := if x < 0 then -x else x;
    Decimal.DigitsHaveNoSeparator(Decimal.NatToString(n), c);
  }

  lemma DimsStringLacks(dims: seq<int>, c: char)
    requires !Decimal.IsDigit(c) && c != '-' && c != ','
    ensures c !in DimsString(dims)
  {
    forall k | 0 <= k < |dims| ensures c !in DimStrings(dims)[k] {
      IntStringLacks(dims[k], c);
    }
    Strings.JoinLacksChar(",", DimStrings(dims), c);
  }

  lemma ShapeStringLacksSpace(shapes: seq<seq<int>>)
    ensures ' ' !in ShapeString(shapes)
  {
    forall k | 0 <= k < |shapes| ensures ' ' !in ShapeStrings(shapes)[k] {
      DimsStringLacks(shapes[k], ' ');
    }
    Strings.JoinLacksChar(":", ShapeStrings(shapes), ' ');
  }

  /** No flag holds a space when no type or array name does. */
  lemma FlagsLackSpace(dataTypes: seq<string>, inputArrays: seq<string>, outputArrays: seq<string>,
                       shapes: seq<seq<int>>, drop: bool)
    requires |dataTypes| > 0
    requires forall k :: 0 <= k < |dataTypes| ==> ' ' !in dataTypes[k]
    requires forall k :: 0 <= k < |inputArrays| ==> ' ' !in inputArrays[k]
    requires forall k :: 0 <= k < |outputArrays| ==> ' ' !in outputArrays[k]
    ensures forall k :: 0 <= k < |TocoFlags(dataTypes, inputArrays, outputArrays, shapes, drop)| ==>
      ' ' !in TocoFlags(dataTypes, inputArrays, outputArrays, shapes, drop)[k]
  {
    var f := TocoFlags(dataTypes, inputArrays, outputArrays, shapes, drop);
    Strings.JoinLacksChar(",", dataTypes, ' ');
    Strings.JoinLacksChar(",", inputArrays, ' ');
    Strings.JoinLacksChar(",", outputArrays, ' ');
    ShapeStringLacksSpace(shapes);
    LiteralsLackSpace();
    var named := [ "--input_data_types=" + Strings.Join(",", dataTypes),
                   "--inference_type=" + InferenceType(dataTypes),
                   "--input_format=TENSORFLOW_GRAPHDEF",
                   "--output_format=TFLITE",
                   "--input_arrays=" + Strings.Join(",", inputArrays),
                   "--input_shapes=" + ShapeString(shapes),
                   "--output_arrays=" + Strings.Join(",", outputArrays) ];
    var tail: seq<string> := if drop then ["--drop_control_dependency"] else [];
    assert f == named + tail;
    NamedLacksSpace("--input_data_types=", Strings.Join(",", dataTypes));
    NamedLacksSpace("--inference_type=", InferenceType(dataTypes));
    NamedLacksSpace("--input_arrays=", Strings.Join(",", inputArrays));
    NamedLacksSpace("--input_shapes=", ShapeString(shapes));
    NamedLacksSpace("--output_arrays=", Strings.Join(",", outputArrays));
    assert forall k :: 0 <= k < |named| ==> ' ' !in named[k];
    assert forall k :: 0 <= k < |tail| ==> ' ' !in tail[k];
  }

  /** The flag names and fixed values hold no space. */
  lemma LiteralsLackSpace()
    ensures ' ' !in "--input_data_types=" && ' ' !in "--inference_type="
    ensures ' ' !in "--input_format=TENSORFLOW_GRAPHDEF" && ' ' !in "--output_format=TFLITE"
    ensures ' ' !in "--input_arrays=" && ' ' !in "--input_shapes=" && ' ' !in "--output_arrays="
    ensures ' ' !in "--drop_control_dependency"
  {
    NoSpace("--input_data_types=");
    NoSpace("--inference_type=");
    NoSpace("--input_format=TENSORFLOW_GRAPHDEF");
    NoSpace("--output_format=TFLITE");
    NoSpace("--input_arrays=");
    NoSpace("--input_shapes=");
    NoSpace("--output_arrays=");
    NoSpace("--drop_control_dependency");
  }

  predicate IsFlagChar(c: char) {
    c == '-' || c == '_' || c == '=' || ('a' <= c <= 'z') || ('A' <= c <= 'Z')
  }

  lemma NoSpace(s: string)
    requires forall i :: 0 <= i < |s| ==> IsFlagChar(s[i])
    ensures ' ' !in s
  {
  }

  lemma NamedLacksSpace(name: string, value: string)
    requires ' ' !in name && ' ' !in value
    ensures ' ' !in name + value
  {
  }

  /** Splitting a space-prefixed list of flags without spaces at ' ' gives
      an empty first piece and then the flags. */
  lemma SpaceEachSplit(flags: seq<string>)
    requires |flags| > 0 && forall k :: 0 <= k < |flags| ==> ' ' !in flags[k]
    ensures Strings.Split(SpaceEach(flags), " ") == [""] + flags
  {
    SpaceEachIsJoin(flags);
    var parts := [""] + flags;
    assert forall k :: 1 <= k < |parts| ==> parts[k] == flags[k - 1];
    Strings.SplitJoin(parts, ' ');
  }

  /** A TOCO command line splits at its spaces into exactly the expected
      flags, when no type or array name contains a space. */
  lemma OptionsSplitIntoFlags(dataTypes: seq<string>, inputArrays: seq<string>, outputArrays: seq<string>,
                              shapes: seq<seq<int>>, drop: bool)
    requires |dataTypes| > 0
    requires forall k :: 0 <= k < |dataTypes| ==> ' ' !in dataTypes[k]
    requires forall k :: 0 <= k < |inputArrays| ==> ' ' !in inputArrays[k]
    requires forall k :: 0 <= k < |outputArrays| ==> ' ' !in outputArrays[k]
    ensures Strings.Split(TocoOptions(dataTypes, inputArrays, outputArrays, shapes, drop).value, " ")
      == [""] + TocoFlags(dataTypes, inputArrays, outputArrays, shapes, drop)
  {
    FlagsLackSpace(dataTypes, inputArrays, outputArrays, shapes, drop);
    SpaceEachSplit(TocoFlags(dataTypes, inputArrays, outputArrays, shapes, drop));
  }

  /** Splitting the shapes string at ':' and each piece at ',' gives back
      the rendered dims of every shape. */
  lemma ShapeStringRoundTrip(shapes: seq<seq<int>>)
    requires |shapes| > 0 && forall k :: 0 <= k < |shapes| ==> |shapes[k]| > 0
    ensures Strings.Split(ShapeString(shapes), ":") == ShapeStrings(shapes)
    ensures forall k :: 0 <= k < |shapes| ==> Strings.Split(ShapeStrings(shapes)[k], ",") == DimStrings(shapes[k])
  {
    forall k | 0 <= k < |shapes| ensures ':' !in ShapeStrings(shapes)[k] {
      DimsStringLacks(shapes[k], ':');
    }
    Strings.SplitJoin(ShapeStrings(shapes), ':');
    forall k | 0 <= k < |shapes| ensures Strings.Split(ShapeStrings(shapes)[k], ",") == DimStrings(shapes[k]) {
      forall j | 0 <= j < |shapes[k]| ensures ',' !in DimStrings(shapes[k])[j] {
        IntStringLacks(shapes[k][j], ',');
      }
      Strings.SplitJoin(DimStrings(shapes[k]), ',');
    }
  }

  // ---------------------------------------------------------------------------
  // Conversion reports and the error count
  // ---------------------------------------------------------------------------

  /** `report_lib.NOTRUN`, `FAILED` and `SUCCESS`. */
  datatype Status = NotRun | Failed | Success

  datatype Report = Report(tf: Status, toco: Status)

  /** The report of `build_example`: TensorFlow fails and TOCO is not run
      when the graph or its test inputs cannot be built; otherwise TOCO
      succeeds exactly when it produced a model. */
  function BuildReport(graphBuilt: bool, converted: bool): (r: Report)
    ensures r.tf == Success <==> graphBuilt
    ensures r.tf != Success ==> r.tf == Failed
    ensures r.toco == NotRun <==> !graphBuilt
    ensures r.toco == Success <==> graphBuilt && converted
  {
    if !graphBuilt then Report(Failed, NotRun)
    else Report(Success, if converted then Success else Failed)
  }

  /** A report `build_example` can produce: TOCO ran exactly when
      TensorFlow succeeded. */
  predicate Reachable(r: Report) {
    exists graphBuilt: bool, converted: bool :: r == BuildReport(graphBuilt, converted)
  }

  /** Whether a result counts as a TOCO error: the conversion failed and
      either known bugs count or no known-bug pattern matches the label. */
  predicate IsTocoError(testLabel: string, r: Report, knownBugsAreErrors: bool, knownBug: string -> bool) {
    r.toco == Failed && (knownBugsAreErrors || !knownBug(testLabel))
  }

  /** The number of TOCO errors among the results. */
  function CountErrors(results: seq<(string, Report)>, knownBugsAreErrors: bool, knownBug: string -> bool): nat {
    if |results| == 0 then 0
    else
      CountErrors(results[..|results| - 1], knownBugsAreErrors, knownBug)
      + (if IsTocoError(results[|results| - 1].0, results[|results| - 1].1, knownBugsAreErrors, knownBug) then 1 else 0)
  }

  /** The errors are the results that count as errors, one for each. */
  lemma {:induction false} CountErrorsIsCardinality(results: seq<(string, Report)>, knownBugsAreErrors: bool, knownBug: string -> bool)
    ensures CountErrors(results, knownBugsAreErrors, knownBug)
      == |set i | 0 <= i < |results| && IsTocoError(results[i].0, results[i].1, knownBugsAreErrors, knownBug)|
  {
    if |results| > 0 {
      var n := |results| - 1;
      var init := results[..n];
      CountErrorsIsCardinality(init, knownBugsAreErrors, knownBug);
      var before := set i | 0 <= i < n && IsTocoError(init[i].0, init[i].1, knownBugsAreErrors, knownBug);
      var all := set i | 0 <= i < |results| && IsTocoError(results[i].0, results[i].1, knownBugsAreErrors, knownBug);
      assert forall i :: 0 <= i < n ==> init[i] == results[i];
      if IsTocoError(results[n].0, results[n].1, knownBugsAreErrors, knownBug) {
        assert all == before + {n};
      } else {
        assert all == before;
      }
    }
  }

  /** The loop of `make_zip_of_tests` over the conversion results. */
  method TocoErrors(results: seq<(string, Report)>, knownBugsAreErrors: bool, knownBug: string -> bool)
    returns (errors: nat)
    ensures errors == CountErrors(results, knownBugsAreErrors, knownBug)
  {
    errors := 0;
    var i := 0;
    while i < |results|
      invariant 0 <= i <= |results|
      invariant errors == CountErrors(results[..i], knownBugsAreErrors, knownBug)
    {
      var (testLabel, report) := results[i];
      if report.toco == Failed {
        var ignoreError := false;
        if !knownBugsAreErrors {
          if knownBug(testLabel) {
            ignoreError := true;
          }
        }
        if !ignoreError {
          errors := errors + 1;
        }
      }
      assert results[..i + 1][..i] == results[..i];
      i := i + 1;
    }
    assert results[..|results|] == results;
  }

  /** The number of results whose TensorFlow run succeeded. */
  function TfSuccesses(results: seq<(string, Report)>): nat {
    if |results| == 0 then 0
    else TfSuccesses(results[..|results| - 1]) + (if results[|results| - 1].1.tf == Success then 1 else 0)
  }

  /** Only models TensorFlow could build count as TOCO errors, so there are
      never more errors than TensorFlow successes. */
  lemma {:induction false} ErrorsAtMostTfSuccesses(results: seq<(string, Report)>, knownBugsAreErrors: bool, knownBug: string -> bool)
    requires forall i :: 0 <= i < |results| ==> Reachable(results[i].1)
    ensures CountErrors(results, knownBugsAreErrors, knownBug) <= TfSuccesses(results)
  {
    if |results| > 0 {
      var n := |results| - 1;
      assert forall i :: 0 <= i < n ==> results[..n][i] == results[i];
      ErrorsAtMostTfSuccesses(results[..n], knownBugsAreErrors, knownBug);
      var g: bool, c: bool :| results[n].1 == BuildReport(g, c);
    }
  }

  /** Matching known bugs only ever removes errors. */
  lemma {:induction false} KnownBugsOnlyExcuse(results: seq<(string, Report)>, knownBug: string -> bool)
    ensures CountErrors(results, false, knownBug) <= CountErrors(results, true, knownBug)
    ensures (forall i :: 0 <= i < |results| ==> !knownBug(results[i].0)) ==>
      CountErrors(results, false, knownBug) == CountErrors(results, true, knownBug)
  {
    if |results| > 0 {
      var n := |results| - 1;
      assert forall i :: 0 <= i < n ==> results[..n][i] == results[i];
      KnownBugsOnlyExcuse(results[..n], knownBug);
    }
  }

  /** The RuntimeError at the end of `make_zip_of_tests`. */
  datatype RunError = FoundErrors(count: nat)

  function FinalCheck(errors: nat, ignoreTocoErrors: bool): (r: Outcome<RunError>)
    ensures r.Fail? <==> !ignoreTocoErrors && errors > 0
    ensures r.Fail? ==> r.error == FoundErrors(errors)
  {
    if !ignoreTocoErrors && errors > 0 then Fail(FoundErrors(errors)) else Pass
  }

  /** The run fails exactly when some result counts as an error and errors
      are not ignored. */
  lemma RunFailsIffCountedError(results: seq<(string, Report)>, knownBugsAreErrors: bool,
                                knownBug: string -> bool, ignoreTocoErrors: bool)
    ensures FinalCheck(CountErrors(results, knownBugsAreErrors, knownBug), ignoreTocoErrors).Fail?
      <==> !ignoreTocoErrors && exists i :: 0 <= i < |results| && IsTocoError(results[i].0, results[i].1, knownBugsAreErrors, knownBug)
  {
    CountErrorsIsCardinality(results, knownBugsAreErrors, knownBug);
    var s := set i | 0 <= i < |results| && IsTocoError(results[i].0, results[i].1, knownBugsAreErrors, knownBug);
    if exists i :: 0 <= i < |results| && IsTocoError(results[i].0, results[i].1, knownBugsAreErrors, knownBug) {
      var i :| 0 <= i < |results| && IsTocoError(results[i].0, results[i].1, knownBugsAreErrors, knownBug);
      assert i in s;
    } else {
      assert s == {};
    }
  }
}
