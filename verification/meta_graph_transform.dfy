/** Helpers of the MetaGraphDef transform: tensor-to-op names, the tests
    for removed ops, the freeze-graph phase split, the shared init node,
    collection lookups, and the pruning of savers, collections and
    signatures after the graph was transformed. The graph transforms and
    freezing themselves are foreign and appear as steps of a plan. */
module MetaGraphTransform {
  import opened Wrappers
  import Strings
  import StringOrder

  const FreezeGraphTransformName: string := "freeze_graph"
  /** `GraphKeys.TABLE_INITIALIZERS`. */
  const TableInitializersKey: string := "table_initializer"
  /** `LEGACY_INIT_OP_KEY` of the saved-model constants. */
  const LegacyInitOpKey: string := "legacy_init_op"

  datatype MgtError =
    | IndexError                       // `tensor_name[0]` of an empty name
    | UnpackError(name: string)        // `op, _ = name.split(':')` with two or more colons
    | KeyError(key: string)            // a missing dictionary key
    | EmptyTensorName
    | RemovedTensor(name: string)
    | NotNodeList(key: string)
    | NotSingleNode(key: string)

  // ---------------------------------------------------------------------------
  // Op names
  // ---------------------------------------------------------------------------

  /** Drop the '^' that marks a control input. */
  function StripControl(t: string): string {
    if |t| > 0 && t[0] == '^' then t[1..] else t
  }

  /** `_op_name`: the op producing a tensor, without the control marker and
      the `:port` suffix. */
  function OpName(t: string): (r: Result<string, MgtError>)
    ensures r.Err? <==> |t| == 0 || |Strings.Split(StripControl(t), ":")| > 2
    ensures |t| == 0 ==> r == Err(IndexError)
    ensures r.Ok? ==> ':' !in r.value
    ensures r.Ok? ==> r.value == StripControl(t) || Strings.IsPrefix(r.value + ":", StripControl(t))
  {
    if |t| == 0 then Err(IndexError)
    else
      var name := StripControl(t);
      Strings.CharSubstring(':', name);
      if ':' in name then
        var parts := Strings.Split(name, ":");
        Strings.CharSubstring(':', parts[0]);
        if |parts| != 2 then Err(UnpackError(name)) else Ok(parts[0])
      else Ok(name)
  }

  /** `op:port` names op `op`. */
  lemma OpNameOfPort(op: string, port: string)
    requires ':' !in op && ':' !in port && (|op| == 0 || op[0] != '^')
    ensures OpName(op + ":" + port) == Ok(op)
  {
    var t := op + ":" + port;
    assert t == Strings.Join([':'], [op, port]);
    Strings.SplitJoin([op, port], ':');
    assert StripControl(t) == t;
  }

  /** `^op` names op `op`. */
  lemma OpNameOfControlInput(op: string)
    requires ':' !in op
    ensures OpName("^" + op) == Ok(op)
  {
    assert StripControl("^" + op) == op;
  }

  // ---------------------------------------------------------------------------
  // Removed ops
  // ---------------------------------------------------------------------------

  /** `_is_removed` as written: the name starts with some removed op name. */
  predicate RemovedBy(name: string, removed: set<string>) {
    exists r :: r in removed && Strings.IsPrefix(r, name)
  }

  /** `_is_removed_mentioned`: some removed op name occurs in the text. */
  predicate MentionedBy(text: string, removed: set<string>) {
    exists r :: r in removed && Strings.IsSubstring(r, text)
  }

  /** The loop of `_is_removed` over the removed names. */
  method IsRemoved(name: string, removed: set<string>) returns (b: bool)
    ensures b <==> RemovedBy(name, removed)
  {
    var rest := removed;
    while rest != {}
      invariant rest <= removed
      invariant forall r :: r in removed - rest ==> !Strings.IsPrefix(r, name)
      decreases |rest|
    {
      var r :| r in rest;
      if Strings.IsPrefix(r, name) {
        return true;
      }
      rest := rest - {r};
    }
    return false;
  }

  /** The loop of `_is_removed_mentioned` over the removed names. */
  method IsRemovedMentioned(text: string, removed: set<string>) returns (b: bool)
    ensures b <==> MentionedBy(text, removed)
  {
    var rest := removed;
    while rest != {}
      invariant rest <= removed
      invariant forall r :: r in removed - rest ==> !Strings.IsSubstring(r, text)
      decreases |rest|
    {
      var r :| r in rest;
      if Strings.IsSubstring(r, text) {
        return true;
      }
      rest := rest - {r};
    }
    return false;
  }

  /** `_check_tensor_not_removed`, for a removal test `isRemoved`. */
  function CheckTensorNotRemoved(name: string, removed: set<string>,
                                 isRemoved: (string, set<string>) -> bool): (r: Outcome<MgtError>)
    ensures r.Fail? <==> name == "" || isRemoved(name, removed)
    ensures name == "" ==> r == Fail(EmptyTensorName)
    ensures name != "" && isRemoved(name, removed) ==> r == Fail(RemovedTensor(name))
  {
    if name == "" then Fail(EmptyTensorName)
    else if isRemoved(name, removed) then Fail(RemovedTensor(name))
    else Pass
  }

  /** `set(base_op_names) - set(retained_op_names)`. */
  function RemovedOpNames(base: seq<string>, retained: seq<string>): (r: set<string>)
    ensures forall x :: x in r <==> x in base && x !in retained
  {
    set x | x in base && x !in retained
  }

  /** The removal test the docstring describes: the tensor is an output of
      a removed op, that is its op part is a removed name. */
  predicate RemovedFixed(name: string, removed: set<string>) {
    exists r :: r in removed && (name == r || Strings.IsPrefix(r + ":", name))
  }

  /** As written, a retained op whose name begins with a removed op's name
      counts as removed: with ops `a` and `ab` of which only `ab` survives,
      `ab` and its output `ab:0` are taken for removed ones. */
  lemma RetainedPrefixTreatedAsRemoved()
    ensures RemovedOpNames(["a", "ab"], ["ab"]) == {"a"}
    ensures RemovedBy("ab", {"a"}) && RemovedBy("ab:0", {"a"})
    ensures PrunedCollection(Collection(NodeList, ["ab"]), {"a"}, RemovedBy).values == []
    ensures CheckTensorNotRemoved("ab:0", {"a"}, RemovedBy) == Fail(RemovedTensor("ab:0"))
  {
    var removed := RemovedOpNames(["a", "ab"], ["ab"]);
    assert "a" in removed;
    assert forall x :: x in removed ==> x == "a";
    assert Strings.IsPrefix("a", "ab") && Strings.IsPrefix("a", "ab:0");
    assert Keep(["ab"], x => !RemovedBy(x, {"a"})) == [];
  }

  /** A name with no ':' of its own cannot begin with `r:`. */
  lemma ColonAfterPrefix(r: string, s: string)
    ensures Strings.IsPrefix(r + ":", s) ==> ':' in s
  {
    if Strings.IsPrefix(r + ":", s) {
      assert s[|r|] == (r + ":")[|r|];
    }
  }

  /** In `op:port`, a prefix `r:` with no ':' in `r` is `op:`. */
  lemma FirstColon(r: string, op: string, port: string)
    requires ':' !in r && ':' !in op
    ensures Strings.IsPrefix(r + ":", op + ":" + port) ==> r == op
  {
    var t := op + ":" + port;
    assert forall k :: 0 <= k < |op| ==> t[k] == op[k];
    assert t[|op|] == ':';
    if Strings.IsPrefix(r + ":", t) {
      assert forall k :: 0 <= k < |r| ==> t[k] == r[k];
      assert t[|r|] == (r + ":")[|r|];
      assert |r| == |op|;
      assert r == t[..|r|];
    }
  }

  /** With the intended test, no op that survived the transform, nor any of
      its outputs, counts as removed, while every removed op and its outputs
      do. */
  lemma FixedRemovalKeepsRetained(base: seq<string>, retained: seq<string>, op: string, port: string)
    requires forall k :: 0 <= k < |base| ==> ':' !in base[k]
    requires ':' !in op && ':' !in port
    ensures op in retained ==> !RemovedFixed(op, RemovedOpNames(base, retained))
    ensures op in retained ==> !RemovedFixed(op + ":" + port, RemovedOpNames(base, retained))
    ensures op in RemovedOpNames(base, retained) ==> (
      && RemovedFixed(op, RemovedOpNames(base, retained))
      && RemovedFixed(op + ":" + port, RemovedOpNames(base, retained)))
  {
    var removed := RemovedOpNames(base, retained);
    var t := op + ":" + port;
    assert t[|op|] == ':';
    forall r | r in removed
      ensures ':' !in r
      ensures Strings.IsPrefix(r + ":", op) ==> ':' in op
      ensures Strings.IsPrefix(r + ":", t) ==> r == op
    {
      ColonAfterPrefix(r, op);
      FirstColon(r, op, port);
    }
    assert Strings.IsPrefix(op + ":", t);
  }

  // ---------------------------------------------------------------------------
  // Collections
  // ---------------------------------------------------------------------------

  /** Which list of a CollectionDef is set. */
  datatype Kind = AnyList | BytesList | NodeList | Unset

  /** A collection: its kind and its entries (node names, or the serialized
      entries as text). */
  datatype Collection = Collection(kind: Kind, values: seq<string>)

  /** `collection.node_list.value`: empty unless the collection is a node list. */
  function NodeListValues(c: Collection): seq<string> {
    if c.kind == NodeList then c.values else []
  }

  /** The entries of `s` that `keep` accepts, in order. */
  function Keep<T>(s: seq<T>, keep: T -> bool): (r: seq<T>)
    ensures |r| <= |s|
    ensures forall x :: x in r ==> x in s && keep(x)
    ensures forall x :: x in s && keep(x) ==> x in r
  {
    if |s| == 0 then []
    else
      var rest := Keep(s[1..], keep);
      assert s == [s[0]] + s[1..];
      if keep(s[0]) then [s[0]] + rest else rest
  }

  /** `_add_pruned_collection`: node lists drop removed names, any and bytes
      lists drop entries mentioning a removed op, anything else is copied.
      Bytes and node lists are assigned whole, so their kind survives even
      when nothing is kept; an any list is only ever grown entry by entry,
      so when every entry is dropped the copy has no list set at all. */
  function PrunedCollection(c: Collection, removed: set<string>,
                            isRemoved: (string, set<string>) -> bool): (r: Collection)
    ensures c.kind != AnyList ==> r.kind == c.kind
    ensures c.kind == AnyList ==> r.kind == (if |r.values| == 0 then Unset else AnyList)
    ensures forall x :: x in r.values ==> x in c.values
    ensures c.kind == NodeList ==> forall x :: x in c.values ==> (x in r.values <==> !isRemoved(x, removed))
    ensures c.kind in {AnyList, BytesList} ==> forall x :: x in c.values ==> (x in r.values <==> !MentionedBy(x, removed))
    ensures c.kind == Unset ==> r == c
  {
    match c.kind
    case AnyList =>
      var kept := Keep(c.values, x => !MentionedBy(x, removed));
      if |kept| == 0 then Collection(Unset, []) else Collection(AnyList, kept)
    case BytesList => Collection(BytesList, Keep(c.values, x => !MentionedBy(x, removed)))
    case NodeList => Collection(NodeList, Keep(c.values, x => !isRemoved(x, removed)))
    case Unset => c
  }

  /** `_get_single_node_name_from_collection`. */
  function SingleNodeName(collections: map<string, Collection>, key: string): (r: Result<Option<string>, MgtError>)
    ensures key !in collections <==> r == Ok(None)
    ensures r.Ok? && r.value.Some? ==> (
      && key in collections && NodeListValues(collections[key]) == [r.value.value])
    ensures key in collections && NodeListValues(collections[key]) == [] ==> r == Err(NotNodeList(key))
    ensures key in collections && |NodeListValues(collections[key])| > 1 ==> r == Err(NotSingleNode(key))
  {
    if key !in collections then Ok(None)
    else
      var values := NodeListValues(collections[key]);
      if |values| == 0 then Err(NotNodeList(key))
      else if |values| != 1 then Err(NotSingleNode(key))
      else Ok(Some(values[0]))
  }

  /** `_get_all_node_names_from_collection`. */
  function AllNodeNames(collections: map<string, Collection>, key: string): (r: Result<Option<seq<string>>, MgtError>)
    ensures key !in collections <==> r == Ok(None)
    ensures r.Ok? && r.value.Some? ==> (
      && key in collections && r.value.value == NodeListValues(collections[key]) && |r.value.value| >= 1)
    ensures key in collections && NodeListValues(collections[key]) == [] ==> r == Err(NotNodeList(key))
  {
    if key !in collections then Ok(None)
    else
      var values := NodeListValues(collections[key]);
      if |values| == 0 then Err(NotNodeList(key)) else Ok(Some(values))
  }

  // ---------------------------------------------------------------------------
  // The shared init node
  // ---------------------------------------------------------------------------

  datatype NodeDef = NodeDef(name: string, op: string, inputs: seq<string>)

  function ControlInputs(names: seq<string>): (r: seq<string>)
    ensures |r| == |names|
    ensures forall i :: 0 <= i < |names| ==> r[i] == "^" + names[i]
  {
    seq(|names|, i requires 0 <= i < |names| => "^" + names[i])
  }

  /** `_connect_to_shared_init_op`: a NoOp with a control input from each
      given node, added only when there is one. */
  function ConnectToSharedInitOp(nodes: seq<NodeDef>, sharedName: string, toConnect: seq<string>): (r: seq<NodeDef>)
    ensures |toConnect| == 0 ==> r == nodes
    ensures |toConnect| > 0 ==> r == nodes + [NodeDef(sharedName, "NoOp", ControlInputs(toConnect))]
  {
    if |toConnect| == 0 then nodes else nodes + [NodeDef(sharedName, "NoOp", ControlInputs(toConnect))]
  }

  /** The shared node's inputs name exactly the connected nodes. */
  lemma SharedInitInputsNameNodes(nodes: seq<NodeDef>, sharedName: string, toConnect: seq<string>)
    requires |toConnect| > 0 && forall i :: 0 <= i < |toConnect| ==> ':' !in toConnect[i]
    ensures var r := ConnectToSharedInitOp(nodes, sharedName, toConnect);
      && |r| == |nodes| + 1 && r[..|nodes|] == nodes
      && forall i :: 0 <= i < |toConnect| ==> OpName(r[|nodes|].inputs[i]) == Ok(toConnect[i])
  {
    forall i | 0 <= i < |toConnect| ensures OpName("^" + toConnect[i]) == Ok(toConnect[i]) {
      OpNameOfControlInput(toConnect[i]);
    }
  }

  // ---------------------------------------------------------------------------
  // The transform plan
  // ---------------------------------------------------------------------------

  /** One foreign step: copying the graph, one Graph Transform Tool run, or
      freezing (keeping `keep` and connecting `tables` to `sharedInit`). */
  datatype Step =
    | CopyGraph
    | TransformGraph(inputs: seq<string>, outputs: seq<string>, transforms: seq<string>)
    | FreezeGraph(keep: seq<string>, tables: seq<string>, sharedInit: string)

  /** The initializer names, as the dictionary's items in insertion order. */
  type Initializers = seq<(string, seq<string>)>

  function Lookup(d: Initializers, key: string): (r: Option<seq<string>>)
    ensures r.Some? <==> exists i :: 0 <= i < |d| && d[i].0 == key
  {
    if |d| == 0 then None
    else if d[0].0 == key then Some(d[0].1)
    else
      var r := Lookup(d[1..], key);
      assert forall i :: 1 <= i < |d| ==> d[1..][i - 1] == d[i];
      r
  }

  /** `[k for l in initializer_names.values() for k in l]`. */
  function Flatten(d: Initializers): seq<string> {
    if |d| == 0 then [] else d[0].1 + Flatten(d[1..])
  }

  /** The first position of `x` in `s`, as `list.index`. */
  function IndexOf(s: seq<string>, x: string): (r: Option<nat>)
    ensures r.None? <==> x !in s
    ensures r.Some? ==> r.value < |s| && s[r.value] == x && x !in s[..r.value]
  {
    if |s| == 0 then None
    else if s[0] == x then Some(0)
    else
      match IndexOf(s[1..], x)
      case None => None
      case Some(i) =>
        assert s[..i + 1] == [s[0]] + s[1..][..i];
        Some(i + 1)
  }

  /** `[_op_name(x) for x in names]`: the first failure wins. */
  function OpNames(names: seq<string>): (r: Result<seq<string>, MgtError>)
    ensures r.Ok? <==> forall i :: 0 <= i < |names| ==> OpName(names[i]).Ok?
    ensures r.Ok? ==> |r.value| == |names| && forall i :: 0 <= i < |names| ==> r.value[i] == OpName(names[i]).value
  {
    if |names| == 0 then Ok([])
    else
      match OpName(names[0])
      case Err(e) => Err(e)
      case Ok(n) =>
        match OpNames(names[1..])
        case Err(e) => Err(e)
        case Ok(rest) => Ok([n] + rest)
  }

  /** The transform names one step carries out, a freeze being the
      freeze_graph transform. */
  function StepTransforms(step: Step): seq<string> {
    match step
    case CopyGraph => []
    case TransformGraph(_, _, ts) => ts
    case FreezeGraph(_, _, _) => [FreezeGraphTransformName]
  }

  /** The transform names a plan carries out. */
  function PlanTransforms(plan: seq<Step>): seq<string> {
    if |plan| == 0 then [] else StepTransforms(plan[0]) + PlanTransforms(plan[1..])
  }

  lemma {:induction false} PlanTransformsConcat(a: seq<Step>, b: seq<Step>)
    ensures PlanTransforms(a + b) == PlanTransforms(a) + PlanTransforms(b)
  {
    if |a| > 0 {
      assert (a + b)[0] == a[0];
      assert (a + b)[1..] == a[1..] + b;
      PlanTransformsConcat(a[1..], b);
    } else {
      assert a + b == b;
    }
  }

  /** No tool run of the plan includes freezing. */
  predicate FreezeOnlyAsStep(plan: seq<Step>) {
    forall k :: 0 <= k < |plan| && plan[k].TransformGraph? ==> FreezeGraphTransformName !in plan[k].transforms
  }

  /** Phase one, the freeze and phase two together carry out the whole
      list, and none of their tool runs includes freezing. */
  lemma FreezePlan(transforms: seq<string>, i: nat, phase1: seq<Step>, freeze: Step, phase2: seq<Step>)
    requires i < |transforms| && transforms[i] == FreezeGraphTransformName && freeze.FreezeGraph?
    requires PlanTransforms(phase1) == transforms[..i] && PlanTransforms(phase2) == transforms[i + 1..]
    requires forall k :: 0 <= k < |phase1| && phase1[k].TransformGraph? ==> FreezeGraphTransformName !in phase1[k].transforms
    requires forall k :: 0 <= k < |phase2| && phase2[k].TransformGraph? ==> FreezeGraphTransformName !in phase2[k].transforms
    ensures PlanTransforms(phase1 + [freeze] + phase2) == transforms
    ensures var plan := phase1 + [freeze] + phase2;
      forall k :: 0 <= k < |plan| && plan[k].TransformGraph? ==> FreezeGraphTransformName !in plan[k].transforms
  {
    FreezePlanTransforms(transforms, i, phase1, freeze, phase2);
    FreezePlanSteps(phase1, freeze, phase2);
  }

  lemma FreezePlanTransforms(transforms: seq<string>, i: nat, phase1: seq<Step>, freeze: Step, phase2: seq<Step>)
    requires i < |transforms| && transforms[i] == FreezeGraphTransformName && freeze.FreezeGraph?
    requires PlanTransforms(phase1) == transforms[..i] && PlanTransforms(phase2) == transforms[i + 1..]
    ensures PlanTransforms(phase1 + [freeze] + phase2) == transforms
  {
    PlanTransformsConcat(phase1, [freeze] + phase2);
    PlanTransformsConcat([freeze], phase2);
    assert phase1 + [freeze] + phase2 == phase1 + ([freeze] + phase2);
    assert PlanTransforms([freeze]) == [FreezeGraphTransformName] + PlanTransforms([]);
    assert transforms == transforms[..i] + [FreezeGraphTransformName] + transforms[i + 1..];
  }

  lemma FreezePlanSteps(phase1: seq<Step>, freeze: Step, phase2: seq<Step>)
    requires freeze.FreezeGraph? && FreezeOnlyAsStep(phase1) && FreezeOnlyAsStep(phase2)
    ensures FreezeOnlyAsStep(phase1 + [freeze] + phase2)
  {
    var plan := phase1 + [freeze] + phase2;
    forall k | 0 <= k < |plan| && plan[k].TransformGraph? ensures FreezeGraphTransformName !in plan[k].transforms {
      if k < |phase1| {
        assert plan[k] == phase1[k];
      } else if k > |phase1| {
        assert plan[k] == phase2[k - |phase1| - 1];
      }
    }
  }

  /** The freeze step of `_do_transforms` and the initializer names left
      for the transforms after it: the output ops and the table
      initializers are kept, the tables are connected to the first legacy
      init op, and both entries survive only when there are tables. */
  function FreezeStep(outputs: seq<string>, inits: Initializers): (r: Result<(Step, Initializers), MgtError>)
    ensures OpNames(outputs).Err? ==> r.Err?
    ensures Lookup(inits, TableInitializersKey).None? ==> r.Err?
    ensures r.Ok? ==> (
      && var tables := Lookup(inits, TableInitializersKey).value;
      && var legacy := Lookup(inits, LegacyInitOpKey);
      && legacy.Some? && |legacy.value| > 0
      && r.value.0 == FreezeGraph(OpNames(outputs).value + tables, tables, legacy.value[0])
      && (|tables| > 0 ==> r.value.1 == [(TableInitializersKey, tables), (LegacyInitOpKey, legacy.value)])
      && (|tables| == 0 ==> r.value.1 == []))
  {
    match OpNames(outputs)
    case Err(e) => Err(e)
    case Ok(names) =>
      match Lookup(inits, TableInitializersKey)
      case None => Err(KeyError(TableInitializersKey))
      case Some(tables) =>
        match Lookup(inits, LegacyInitOpKey)
        case None => Err(KeyError(LegacyInitOpKey))
        case Some(legacy) =>
          if |legacy| == 0 then Err(IndexError)
          else
            var pruned := if |tables| > 0 then [(TableInitializersKey, tables), (LegacyInitOpKey, legacy)] else [];
            Ok((FreezeGraph(names + tables, tables, legacy[0]), pruned))
  }

  /** `_do_transforms`: without freeze_graph one tool run keeping the
      outputs and the sorted initializer names; with it, the transforms
      before its first occurrence, the freeze, then the rest. */
  function DoTransforms(inputs: seq<string>, outputs: seq<string>, inits: Initializers,
                        transforms: seq<string>): (r: Result<seq<Step>, MgtError>)
    ensures |transforms| == 0 ==> r == Ok([CopyGraph])
    ensures FreezeGraphTransformName !in transforms && |transforms| > 0 ==> (
      && r.Ok? && |r.value| == 1 && r.value[0].TransformGraph?
      && r.value[0].transforms == transforms && r.value[0].inputs == inputs
      && |r.value[0].outputs| >= |outputs| && r.value[0].outputs[..|outputs|] == outputs
      && StringOrder.Sorted(r.value[0].outputs[|outputs|..])
      && multiset(r.value[0].outputs[|outputs|..]) == multiset(Flatten(inits)))
    ensures r.Ok? ==> PlanTransforms(r.value) == transforms
    ensures r.Ok? ==> forall k :: 0 <= k < |r.value| && r.value[k].TransformGraph? ==>
      FreezeGraphTransformName !in r.value[k].transforms
    decreases |transforms|
  {
    if |transforms| == 0 then Ok([CopyGraph])
    else
      match IndexOf(transforms, FreezeGraphTransformName)
      case None =>
        var plan := [TransformGraph(inputs, outputs + StringOrder.Sort(Flatten(inits)), transforms)];
        assert (outputs + StringOrder.Sort(Flatten(inits)))[|outputs|..] == StringOrder.Sort(Flatten(inits));
        assert PlanTransforms(plan) == transforms + PlanTransforms([]);
        Ok(plan)
      case Some(i) =>
        match DoTransforms(inputs, outputs, inits, transforms[..i])
        case Err(e) => Err(e)
        case Ok(phase1) =>
          match FreezeStep(outputs, inits)
          case Err(e) => Err(e)
          case Ok((freeze, pruned)) =>
            match DoTransforms(inputs, outputs, pruned, transforms[i + 1..])
            case Err(e) => Err(e)
            case Ok(phase2) =>
              FreezePlan(transforms, i, phase1, freeze, phase2);
              Ok(phase1 + [freeze] + phase2)
  }

  /** A freeze needs the table initializers entry, so a second freeze after
      one that dropped an empty entry fails. */
  lemma SecondFreezeWithoutTablesFails(inputs: seq<string>)
    ensures DoTransforms(inputs, [], [(TableInitializersKey, []), (LegacyInitOpKey, ["init"])],
                         [FreezeGraphTransformName, FreezeGraphTransformName])
      == Err(KeyError(TableInitializersKey))
  {
    var inits: Initializers := [(TableInitializersKey, []), (LegacyInitOpKey, ["init"])];
    var ts := [FreezeGraphTransformName, FreezeGraphTransformName];
    assert IndexOf(ts, FreezeGraphTransformName) == Some(0);
    assert ts[..0] == [] && ts[1..] == [FreezeGraphTransformName];
    assert Lookup(inits, TableInitializersKey) == Some([]);
    assert Lookup(inits, LegacyInitOpKey) == Some(["init"]);
    assert IndexOf([FreezeGraphTransformName], FreezeGraphTransformName) == Some(0);
    assert [FreezeGraphTransformName][..0] == [] && [FreezeGraphTransformName][1..] == [];
  }

  // ---------------------------------------------------------------------------
  // The transformed MetaGraphDef
  // ---------------------------------------------------------------------------

  datatype SaverDef = SaverDef(filenameTensor: string, saveTensor: string, restoreOp: string)

  /** A signature's input and output tensor names. */
  datatype Signature = Signature(inputs: seq<string>, outputs: seq<string>)

  datatype MetaGraph = MetaGraph(
    nodeNames: seq<string>, saver: Option<SaverDef>,
    collections: seq<(string, Collection)>, signatures: seq<(string, Signature)>)

  datatype Transformed = Transformed(
    plan: seq<Step>, removed: set<string>, saver: Option<SaverDef>,
    collections: seq<(string, Collection)>, signatures: seq<(string, Signature)>)

  /** `_add_pruned_saver`: the three names are checked in order. */
  function PrunedSaver(saver: SaverDef, removed: set<string>,
                       isRemoved: (string, set<string>) -> bool): (r: Result<SaverDef, MgtError>)
    ensures r.Ok? <==> (
      && CheckTensorNotRemoved(saver.filenameTensor, removed, isRemoved).Pass?
      && CheckTensorNotRemoved(saver.saveTensor, removed, isRemoved).Pass?
      && CheckTensorNotRemoved(saver.restoreOp, removed, isRemoved).Pass?)
    ensures r.Ok? ==> r.value == saver
  {
    match CheckTensorNotRemoved(saver.filenameTensor, removed, isRemoved)
    case Fail(e) => Err(e)
    case Pass =>
      match CheckTensorNotRemoved(saver.saveTensor, removed, isRemoved)
      case Fail(e) => Err(e)
      case Pass =>
        match CheckTensorNotRemoved(saver.restoreOp, removed, isRemoved)
        case Fail(e) => Err(e)
        case Pass => Ok(saver)
  }

  /** A signature survives when none of its tensors fails the check. */
  predicate SignatureKept(sig: Signature, removed: set<string>, isRemoved: (string, set<string>) -> bool) {
    && (forall i :: 0 <= i < |sig.inputs| ==> CheckTensorNotRemoved(sig.inputs[i], removed, isRemoved).Pass?)
    && (forall i :: 0 <= i < |sig.outputs| ==> CheckTensorNotRemoved(sig.outputs[i], removed, isRemoved).Pass?)
  }

  function PrunedCollections(cs: seq<(string, Collection)>, removed: set<string>,
                             isRemoved: (string, set<string>) -> bool): (r: seq<(string, Collection)>)
    ensures |r| == |cs|
    ensures forall i :: 0 <= i < |cs| ==> r[i] == (cs[i].0, PrunedCollection(cs[i].1, removed, isRemoved))
  {
    seq(|cs|, i requires 0 <= i < |cs| => (cs[i].0, PrunedCollection(cs[i].1, removed, isRemoved)))
  }

  /** `meta_graph_transform` after the foreign transforms: `retained` names
      the nodes of the transformed graph. The saver is checked and kept only
      when the graph was not frozen; a signature that mentions a removed
      tensor is left out silently. */
  function Transform(base: MetaGraph, inputs: seq<string>, outputs: seq<string>, inits: Initializers,
                     transforms: seq<string>, retained: seq<string>,
                     isRemoved: (string, set<string>) -> bool): (r: Result<Transformed, MgtError>)
    ensures DoTransforms(inputs, outputs, inits, transforms).Err? ==> r.Err?
    ensures r.Ok? ==> (
      && r.value.removed == RemovedOpNames(base.nodeNames, retained)
      && PlanTransforms(r.value.plan) == transforms
      && (FreezeGraphTransformName in transforms ==> r.value.saver.None?)
      && (FreezeGraphTransformName !in transforms ==> r.value.saver == base.saver)
      && r.value.plan == DoTransforms(inputs, outputs, inits, transforms).value
      && r.value.collections == PrunedCollections(base.collections, r.value.removed, isRemoved)
      && (forall s :: s in r.value.signatures ==> s in base.signatures && SignatureKept(s.1, r.value.removed, isRemoved))
      && (forall s :: s in base.signatures && SignatureKept(s.1, r.value.removed, isRemoved) ==> s in r.value.signatures))
    ensures FreezeGraphTransformName !in transforms && base.saver.Some? && r.Ok? ==>
      PrunedSaver(base.saver.value, RemovedOpNames(base.nodeNames, retained), isRemoved).Ok?
    ensures DoTransforms(inputs, outputs, inits, transforms).Ok? ==> (
      r.Ok? <==> (|| FreezeGraphTransformName in transforms || base.saver.None?
                  || PrunedSaver(base.saver.value, RemovedOpNames(base.nodeNames, retained), isRemoved).Ok?))
    ensures r.Err? && DoTransforms(inputs, outputs, inits, transforms).Ok? ==>
      r.error == PrunedSaver(base.saver.value, RemovedOpNames(base.nodeNames, retained), isRemoved).error
  {
    match DoTransforms(inputs, outputs, inits, transforms)
    case Err(e) => Err(e)
    case Ok(plan) =>
      var removed := RemovedOpNames(base.nodeNames, retained);
      var saver :=
        if FreezeGraphTransformName in transforms || base.saver.None? then Ok(None)
        else match PrunedSaver(base.saver.value, removed, isRemoved)
          case Err(e) => Err(e)
          case Ok(s) => Ok(Some(s));
      match saver
      case Err(e) => Err(e)
      case Ok(kept) =>
        var sigs := Keep(base.signatures, (s: (string, Signature)) => SignatureKept(s.1, removed, isRemoved));
        Ok(Transformed(plan, removed, kept, PrunedCollections(base.collections, removed, isRemoved), sigs))
  }
}
