/** The Estimator `RunConfig` base class: fixed default properties, a
    model directory, and `replace`, which returns a modified copy. An
    object's state is its map of underscore attributes; `_replace` copies
    the map and stores `_key` for every allowed keyword. */
module RunConfig {
  import opened Wrappers

  /** Attribute and property values. */
  datatype Value = NoneValue | Text(s: string) | Int(i: int) | Bool(b: bool)

  /** The object's attributes: key `k` stands for the attribute `_k`. */
  datatype Config = Config(attrs: map<string, Value>)

  /** `TaskType.WORKER`. */
  const WorkerTaskType: string := "worker"

  /** `RunConfig()`: only `_model_dir`, set to None. */
  function Init(): (c: Config)
    ensures c.attrs.Keys == {"model_dir"} && c.attrs["model_dir"] == NoneValue
  {
    Config(map["model_dir" := NoneValue])
  }

  /** The constant properties, or None for a name that is not one. */
  function Default(name: string): Option<Value> {
    match name
    case "cluster_spec" => Some(NoneValue)
    case "evaluation_master" => Some(Text(""))
    case "is_chief" => Some(Bool(true))
    case "master" => Some(Text(""))
    case "num_ps_replicas" => Some(Int(0))
    case "num_worker_replicas" => Some(Int(1))
    case "task_id" => Some(Int(0))
    case "task_type" => Some(Text(WorkerTaskType))
    case "tf_random_seed" => Some(Int(1))
    case "save_summary_steps" => Some(Int(100))
    case "save_checkpoints_secs" => Some(Int(600))
    case "session_config" => Some(NoneValue)
    case "save_checkpoints_steps" => Some(NoneValue)
    case "keep_checkpoint_max" => Some(Int(5))
    case "keep_checkpoint_every_n_hours" => Some(Int(10000))
    case _ => None
  }

  /** The value of a property: `model_dir` reads `_model_dir`, the others
      are constants. */
  function Property(c: Config, name: string): Option<Value> {
    if name == "model_dir" then
      if "model_dir" in c.attrs then Some(c.attrs["model_dir"]) else None
    else Default(name)
  }

  /** A fresh configuration reports the documented defaults. */
  lemma InitDefaults()
    ensures Property(Init(), "model_dir") == Some(NoneValue)
    ensures Property(Init(), "task_type") == Some(Text("worker"))
    ensures Property(Init(), "num_worker_replicas") == Some(Int(1))
    ensures Property(Init(), "num_ps_replicas") == Some(Int(0))
    ensures Property(Init(), "is_chief") == Some(Bool(true))
    ensures Property(Init(), "keep_checkpoint_max") == Some(Int(5))
    ensures Property(Init(), "save_checkpoints_secs") == Some(Int(600))
    ensures Property(Init(), "save_checkpoints_steps") == Some(NoneValue)
  {
  }

  /** The ValueError of `_replace`: the key and the allowed names. */
  datatype ReplaceError = NotSupported(key: string, allowed: seq<string>)

  /** Keyword arguments in call order. */
  type Kwargs = seq<(string, Value)>

  /** `allowed_properties_list or []`. */
  function AllowedList(allowed: Option<seq<string>>): seq<string> {
    if allowed.Some? then allowed.value else []
  }

  /** Whether `kwargs` names `key`. */
  predicate Assigns(kwargs: Kwargs, key: string) {
    exists i :: 0 <= i < |kwargs| && kwargs[i].0 == key
  }

  /** The keyword at `i` is not named again later. */
  predicate LastFor(kwargs: Kwargs, i: int)
    requires 0 <= i < |kwargs|
  {
    forall j :: i < j < |kwargs| ==> kwargs[j].0 != kwargs[i].0
  }

  /** `_replace` on the copy `c`: every keyword in turn is stored or, when it
      is not allowed, the whole call fails naming the first such keyword. */
  function ReplaceWith(c: Config, allowed: Option<seq<string>>, kwargs: Kwargs): (r: Result<Config, ReplaceError>)
    ensures r.Ok? <==> forall i :: 0 <= i < |kwargs| ==> kwargs[i].0 in AllowedList(allowed)
    ensures r.Err? ==> exists i :: (
      && 0 <= i < |kwargs| && kwargs[i].0 !in AllowedList(allowed)
      && (forall j :: 0 <= j < i ==> kwargs[j].0 in AllowedList(allowed))
      && r.error == NotSupported(kwargs[i].0, AllowedList(allowed)))
    decreases |kwargs|
  {
    if |kwargs| == 0 then Ok(c)
    else
      var (key, value) := kwargs[0];
      if key in AllowedList(allowed) then
        var r := ReplaceWith(Config(c.attrs[key := value]), allowed, kwargs[1..]);
        assert forall i :: 1 <= i < |kwargs| ==> kwargs[1..][i - 1] == kwargs[i];
        r
      else Err(NotSupported(key, AllowedList(allowed)))
  }

  /** An allowed first keyword is stored before the rest are handled. */
  lemma ReplaceStep(c: Config, allowed: Option<seq<string>>, kwargs: Kwargs)
    requires |kwargs| > 0 && kwargs[0].0 in AllowedList(allowed)
    ensures ReplaceWith(c, allowed, kwargs) == ReplaceWith(Config(c.attrs[kwargs[0].0 := kwargs[0].1]), allowed, kwargs[1..])
  {
  }

  /** A successful `_replace` holds the receiver's attributes and one for
      every keyword. */
  lemma {:induction false} ReplaceWithKeys(c: Config, allowed: Option<seq<string>>, kwargs: Kwargs)
    requires ReplaceWith(c, allowed, kwargs).Ok?
    ensures forall a :: a in ReplaceWith(c, allowed, kwargs).value.attrs <==> a in c.attrs || Assigns(kwargs, a)
    decreases |kwargs|
  {
    if |kwargs| > 0 {
      var key := kwargs[0].0;
      var rest := kwargs[1..];
      assert key in AllowedList(allowed);
      ReplaceStep(c, allowed, kwargs);
      ReplaceWithKeys(Config(c.attrs[key := kwargs[0].1]), allowed, rest);
      assert forall i :: 1 <= i < |kwargs| ==> rest[i - 1] == kwargs[i];
      assert forall a :: Assigns(rest, a) ==> Assigns(kwargs, a);
      assert forall a :: Assigns(kwargs, a) && a != key ==> Assigns(rest, a);
    }
  }

  /** An attribute no keyword names keeps its value. */
  lemma {:induction false} ReplaceWithKeepsOthers(c: Config, allowed: Option<seq<string>>, kwargs: Kwargs, a: string)
    requires ReplaceWith(c, allowed, kwargs).Ok?
    requires a in c.attrs && !Assigns(kwargs, a)
    ensures a in ReplaceWith(c, allowed, kwargs).value.attrs
    ensures ReplaceWith(c, allowed, kwargs).value.attrs[a] == c.attrs[a]
    decreases |kwargs|
  {
    if |kwargs| > 0 {
      var key := kwargs[0].0;
      var rest := kwargs[1..];
      assert key in AllowedList(allowed);
      assert key != a;
      ReplaceStep(c, allowed, kwargs);
      assert forall i :: 1 <= i < |kwargs| ==> rest[i - 1] == kwargs[i];
      assert !Assigns(rest, a);
      ReplaceWithKeepsOthers(Config(c.attrs[key := kwargs[0].1]), allowed, rest, a);
    }
  }

  /** The value of a keyword's last occurrence is the one stored. */
  lemma {:induction false} ReplaceWithLastWins(c: Config, allowed: Option<seq<string>>, kwargs: Kwargs, i: nat)
    requires ReplaceWith(c, allowed, kwargs).Ok?
    requires i < |kwargs| && LastFor(kwargs, i)
    ensures kwargs[i].0 in ReplaceWith(c, allowed, kwargs).value.attrs
    ensures ReplaceWith(c, allowed, kwargs).value.attrs[kwargs[i].0] == kwargs[i].1
    decreases |kwargs|
  {
    var key := kwargs[0].0;
    var c' := Config(c.attrs[key := kwargs[0].1]);
    var rest := kwargs[1..];
    assert key in AllowedList(allowed);
    ReplaceStep(c, allowed, kwargs);
    assert forall k :: 1 <= k < |kwargs| ==> rest[k - 1] == kwargs[k];
    if i == 0 {
      assert !Assigns(rest, key);
      ReplaceWithKeepsOthers(c', allowed, rest, key);
    } else {
      assert LastFor(rest, i - 1);
      ReplaceWithLastWins(c', allowed, rest, i - 1);
    }
  }

  /** `replace`: only `model_dir` may be replaced. */
  function Replace(c: Config, kwargs: Kwargs): Result<Config, ReplaceError> {
    ReplaceWith(c, Some(["model_dir"]), kwargs)
  }

  /** `replace(model_dir=v)` changes `model_dir` to `v` and no other
      property. */
  lemma {:induction false} ReplaceModelDir(c: Config, v: Value)
    ensures Replace(c, [("model_dir", v)]).Ok?
    ensures Property(Replace(c, [("model_dir", v)]).value, "model_dir") == Some(v)
    ensures forall p :: p != "model_dir" ==> Property(Replace(c, [("model_dir", v)]).value, p) == Property(c, p)
  {
    var kwargs := [("model_dir", v)];
    assert LastFor(kwargs, 0);
    ReplaceWithLastWins(c, Some(["model_dir"]), kwargs, 0);
    var r := Replace(c, kwargs);
    assert r.value.attrs["model_dir"] == v;
  }

  /** Any other keyword is refused, and the refusal names it. */
  lemma ReplaceOtherFails(c: Config, key: string, v: Value)
    requires key != "model_dir"
    ensures Replace(c, [(key, v)]) == Err(NotSupported(key, ["model_dir"]))
  {
  }

  /** With no allowed list nothing can be replaced. */
  lemma NoAllowedListRefusesAll(c: Config, kwargs: Kwargs)
    ensures ReplaceWith(c, None, kwargs).Ok? <==> |kwargs| == 0
  {
    if |kwargs| > 0 {
      assert kwargs[0].0 !in AllowedList(None);
    }
  }

  /** A property whose name is not among the keywords is the same in the
      copy. */
  lemma UnnamedPropertiesUnchanged(c: Config, allowed: Option<seq<string>>, kwargs: Kwargs, p: string)
    requires ReplaceWith(c, allowed, kwargs).Ok?
    requires forall i :: 0 <= i < |kwargs| ==> kwargs[i].0 != p
    ensures Property(ReplaceWith(c, allowed, kwargs).value, p) == Property(c, p)
  {
    assert !Assigns(kwargs, p);
    if p in c.attrs {
      ReplaceWithKeepsOthers(c, allowed, kwargs, p);
    } else {
      ReplaceWithKeys(c, allowed, kwargs);
    }
  }

  /** Two replacements in a row are one replacement with both keyword
      lists, the later values winning. */
  lemma {:induction false} ReplaceTwice(c: Config, allowed: Option<seq<string>>, k1: Kwargs, k2: Kwargs)
    requires ReplaceWith(c, allowed, k1).Ok?
    ensures ReplaceWith(ReplaceWith(c, allowed, k1).value, allowed, k2) == ReplaceWith(c, allowed, k1 + k2)
    decreases |k1|
  {
    if |k1| == 0 {
      assert k1 + k2 == k2;
    } else {
      var c' := Config(c.attrs[k1[0].0 := k1[0].1]);
      assert (k1 + k2)[0] == k1[0] && (k1 + k2)[1..] == k1[1..] + k2;
      ReplaceStep(c, allowed, k1);
      ReplaceStep(c, allowed, k1 + k2);
      ReplaceTwice(c', allowed, k1[1..], k2);
    }
  }
}
