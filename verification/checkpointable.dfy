/** Object-based checkpoint naming: objects own variables and declare
    dependencies on other objects; a breadth-first traversal from the root
    assigns each dependency reference a shortest path, and checkpoint keys
    are built from those paths. Variable creation and optimizer slot lookup
    are abstracted into identifiers and a lookup function. */
module Checkpointable {
  import opened Wrappers
  import Decimal
  import Strings

  // ---------------------------------------------------------------------------
  // Local names
  // ---------------------------------------------------------------------------

  predicate FirstNameChar(c: char) {
    ('A' <= c <= 'Z') || ('a' <= c <= 'z') || ('0' <= c <= '9') || c == '.'
  }

  predicate NameChar(c: char) {
    FirstNameChar(c) || c == '_' || c == '-'
  }

  /** `[A-Za-z0-9.][A-Za-z0-9_.-]*` over the whole string. */
  predicate CoreName(s: string) {
    |s| >= 1 && FirstNameChar(s[0]) && forall i :: 1 <= i < |s| ==> NameChar(s[i])
  }

  /** `_VALID_LOCAL_NAME.match(s)`: Python's `$` also matches just before a
      final newline, so one trailing newline is accepted. */
  predicate ValidLocalName(s: string) {
    CoreName(s) || (|s| >= 2 && s[|s| - 1] == '\n' && CoreName(s[..|s| - 1]))
  }

  const ValidLocalNamePattern: string := "^[A-Za-z0-9.][A-Za-z0-9_.-]*$"

  /** The regular expression run as a left-to-right scan after the first
      character: the end of the string, or a final newline, accepts. */
  function ScanRest(s: string, i: nat): bool
    requires i <= |s|
    decreases |s| - i
  {
    if i == |s| then true
    else if i == |s| - 1 && s[i] == '\n' then true
    else if NameChar(s[i]) then ScanRest(s, i + 1)
    else false
  }

  function MatchLocalName(s: string): bool {
    |s| >= 1 && FirstNameChar(s[0]) && ScanRest(s, 1)
  }

  lemma {:induction false} ScanRestSpec(s: string, i: nat)
    requires 1 <= i <= |s|
    ensures ScanRest(s, i) <==> (
      (forall k :: i <= k < |s| ==> NameChar(s[k]))
      || (s[|s| - 1] == '\n' && forall k :: i <= k < |s| - 1 ==> NameChar(s[k])))
    decreases |s| - i
  {
    if i < |s| && !(i == |s| - 1 && s[i] == '\n') && NameChar(s[i]) {
      ScanRestSpec(s, i + 1);
    }
  }

  /** The scan accepts exactly the valid local names. */
  lemma MatchLocalNameSpec(s: string)
    ensures MatchLocalName(s) <==> ValidLocalName(s)
  {
    if |s| >= 1 {
      ScanRestSpec(s, 1);
      if |s| >= 2 && s[|s| - 1] == '\n' {
        var t := s[..|s| - 1];
        assert forall k :: 1 <= k < |t| ==> t[k] == s[k];
      }
    }
  }

  /** A valid local name is non-empty and holds no '/'. */
  lemma ValidNameHasNoSlash(s: string)
    requires ValidLocalName(s)
    ensures |s| >= 1 && '/' !in s
  {
    if !CoreName(s) {
      var t := s[..|s| - 1];
      assert s == t + ['\n'];
      assert forall k :: 0 <= k < |t| ==> t[k] != '/';
    }
  }

  /** The trailing newline the pattern lets through. */
  lemma TrailingNewlineAccepted()
    ensures ValidLocalName("a\n") && !ValidLocalName("a\n\n") && !ValidLocalName("")
  {
    assert "a\n"[..1] == "a";
    assert "a\n\n"[..2] == "a\n";
  }

  // ---------------------------------------------------------------------------
  // Objects
  // ---------------------------------------------------------------------------

  type ObjId = nat
  type VarId = nat

  /** A dependency reference: the optional local name, the declaration index
      and the referenced object. References compare by all three fields. */
  datatype Ref = Ref(name: Option<string>, localUid: nat, target: ObjId)

  datatype OwnedVariable = OwnedVariable(name: string, variable: VarId)

  /** The bookkeeping of one checkpointable object. */
  datatype Checkpointable = Checkpointable(
    deps: seq<Ref>, depNames: set<string>,
    vars: seq<OwnedVariable>, varNames: set<string>)

  /** A freshly initialised object. */
  function Init(): (c: Checkpointable)
    ensures Consistent(c)
  {
    Checkpointable([], {}, [], {})
  }

  /** The object's name sets describe its lists: variable names are unique,
      named dependencies have unique valid names, and each dependency's
      `localUid` is its declaration index. */
  predicate Consistent(c: Checkpointable) {
    VarsConsistent(c.vars, c.varNames) && DepsConsistent(c.deps, c.depNames)
  }

  /** The variable names are exactly the list's names, without repeats. */
  predicate VarsConsistent(vars: seq<OwnedVariable>, varNames: set<string>) {
    && (forall n :: n in varNames ==> exists i :: 0 <= i < |vars| && vars[i].name == n)
    && (forall i :: 0 <= i < |vars| ==> vars[i].name in varNames)
    && (forall i, j :: 0 <= i < j < |vars| ==> vars[i].name != vars[j].name)
  }

  /** The dependency names are exactly the list's names, valid and without
      repeats, and each `localUid` is its index. */
  predicate DepsConsistent(deps: seq<Ref>, depNames: set<string>) {
    && (forall n :: n in depNames ==> exists i :: 0 <= i < |deps| && deps[i].name == Some(n))
    && (forall i :: 0 <= i < |deps| && deps[i].name.Some? ==> deps[i].name.value in depNames)
    && (forall i, j :: 0 <= i < j < |deps| && deps[i].name.Some? ==> deps[i].name != deps[j].name)
    && (forall i :: 0 <= i < |deps| ==> deps[i].localUid == i)
    && (forall i :: 0 <= i < |deps| && deps[i].name.Some? ==> ValidLocalName(deps[i].name.value))
  }

  /** `add_variable`: a duplicate local name is a ValueError; otherwise the
      new variable (made by the getter, here `v`) is appended. */
  function AddVariable(c: Checkpointable, name: string, v: VarId): (r: Result<Checkpointable, string>)
    ensures r.Err? <==> name in c.varNames
    ensures r.Err? ==> (
      r.error == "A variable named '" + name + "' already exists in this Checkpointable, but "
      + "Checkpointable.add_variable called to create another with that name. Variable names must be unique "
      + "within a Checkpointable object.")
    ensures r.Ok? ==> (
      && r.value.vars == c.vars + [OwnedVariable(name, v)]
      && r.value.varNames == c.varNames + {name}
      && r.value.deps == c.deps && r.value.depNames == c.depNames)
  {
    if name in c.varNames then
      Err("A variable named '" + name + "' already exists in this Checkpointable, but "
        + "Checkpointable.add_variable called to create another with that name. Variable names must be unique "
        + "within a Checkpointable object.")
    else Ok(c.(vars := c.vars + [OwnedVariable(name, v)], varNames := c.varNames + {name}))
  }

  /** `track_checkpointable`: a given name must be valid and new; unnamed
      dependencies are never checked. The reference gets the next declaration
      index, and the argument is returned. */
  function TrackCheckpointable(c: Checkpointable, target: ObjId, name: Option<string>): (r: Result<(Checkpointable, ObjId), string>)
    ensures r.Err? <==> name.Some? && (!ValidLocalName(name.value) || name.value in c.depNames)
    ensures r.Ok? ==> (
      && r.value.1 == target
      && r.value.0.deps == c.deps + [Ref(name, |c.deps|, target)]
      && r.value.0.depNames == (if name.Some? then c.depNames + {name.value} else c.depNames)
      && r.value.0.vars == c.vars && r.value.0.varNames == c.varNames)
  {
    if name.Some? && !(MatchLocalNameSpec(name.value); MatchLocalName(name.value)) then
      Err("Checkpointable names must match the regular expression '" + ValidLocalNamePattern
        + "', but got an invalid name '" + name.value + "' instead.")
    else if name.Some? && name.value in c.depNames then
      Err("Called Checkpointable.track_checkpointable() with name='" + name.value + "', but a Checkpointable "
        + "with this name is already declared as a dependency. If provided, names must be unique.")
    else
      var names := if name.Some? then c.depNames + {name.value} else c.depNames;
      Ok((c.(deps := c.deps + [Ref(name, |c.deps|, target)], depNames := names), target))
  }

  /** Adding a variable keeps an object consistent. */
  lemma AddVariableConsistent(c: Checkpointable, name: string, v: VarId)
    requires Consistent(c) && AddVariable(c, name, v).Ok?
    ensures Consistent(AddVariable(c, name, v).value)
  {
    AppendVarConsistent(c.vars, c.varNames, OwnedVariable(name, v));
  }

  lemma AppendVarConsistent(vars: seq<OwnedVariable>, varNames: set<string>, x: OwnedVariable)
    requires VarsConsistent(vars, varNames) && x.name !in varNames
    ensures VarsConsistent(vars + [x], varNames + {x.name})
  {
    var vars' := vars + [x];
    forall n | n in varNames + {x.name} ensures exists i :: 0 <= i < |vars'| && vars'[i].name == n {
      if n == x.name {
        assert vars'[|vars|].name == n;
      } else {
        var i :| 0 <= i < |vars| && vars[i].name == n;
        assert vars'[i].name == n;
      }
    }
    forall i, j | 0 <= i < j < |vars'| ensures vars'[i].name != vars'[j].name {
      if j == |vars| {
        assert vars[i].name in varNames;
      }
    }
  }

  /** Declaring a dependency keeps an object consistent. */
  lemma TrackConsistent(c: Checkpointable, target: ObjId, name: Option<string>)
    requires Consistent(c) && TrackCheckpointable(c, target, name).Ok?
    ensures Consistent(TrackCheckpointable(c, target, name).value.0)
  {
    AppendDepConsistent(c.deps, c.depNames, Ref(name, |c.deps|, target));
  }

  lemma AppendDepConsistent(deps: seq<Ref>, depNames: set<string>, x: Ref)
    requires DepsConsistent(deps, depNames) && x.localUid == |deps|
    requires x.name.Some? ==> ValidLocalName(x.name.value) && x.name.value !in depNames
    ensures DepsConsistent(deps + [x], if x.name.Some? then depNames + {x.name.value} else depNames)
  {
    var deps' := deps + [x];
    var names' := if x.name.Some? then depNames + {x.name.value} else depNames;
    forall n | n in names' ensures exists i :: 0 <= i < |deps'| && deps'[i].name == Some(n) {
      if x.name == Some(n) {
        assert deps'[|deps|].name == Some(n);
      } else {
        var i :| 0 <= i < |deps| && deps[i].name == Some(n);
        assert deps'[i].name == Some(n);
      }
    }
    forall i, j | 0 <= i < j < |deps'| && deps'[i].name.Some?
      ensures deps'[i].name != deps'[j].name
    {
      if j == |deps| {
        assert deps[i].name.value in depNames;
      }
    }
  }

  // ---------------------------------------------------------------------------
  // Breadth-first traversal of the dependency graph
  // ---------------------------------------------------------------------------

  /** The object graph: each object's bookkeeping, and for optimizers the
      names of their slots. */
  datatype World = World(objects: map<ObjId, Checkpointable>, slotNames: map<ObjId, seq<string>>)

  /** The reference standing for the root object. */
  function RootRef(root: ObjId): Ref {
    Ref(None, 0, root)
  }

  /** The dependencies a reference leads to (none for an unknown object). */
  function Deps(w: World, r: Ref): seq<Ref> {
    if r.target in w.objects then w.objects[r.target].deps else []
  }

  /** Every reference that can appear in a traversal from `root`. */
  function AllRefs(w: World, root: ObjId): (refs: set<Ref>)
    ensures RootRef(root) in refs
    ensures forall r, i :: r in refs && 0 <= i < |Deps(w, r)| ==> Deps(w, r)[i] in refs
  {
    {RootRef(root)} + set id, i | id in w.objects && 0 <= i < |w.objects[id].deps| :: w.objects[id].deps[i]
  }

  /** `c` is a chain of dependency edges leaving `start`. */
  ghost predicate ChainFrom(w: World, start: Ref, c: seq<Ref>) {
    && |c| >= 1
    && c[0] in Deps(w, start)
    && forall i :: 0 <= i < |c| - 1 ==> c[i + 1] in Deps(w, c[i])
  }

  /** What the traversal returns: the visiting order, without repeats,
      starts at the root; every reached reference has a path, the root's
      empty and every other one extending the path of an earlier reference
      it is a dependency of; every dependency of a visited reference is
      reached by a path at most one step longer; path lengths never
      decrease along the order. */
  ghost predicate IsTraversal(w: World, root: ObjId, order: seq<Ref>, paths: map<Ref, seq<Ref>>) {
    && |order| >= 1 && order[0] == RootRef(root)
    && (forall i, j :: 0 <= i < j < |order| ==> order[i] != order[j])
    && (forall r :: r in paths <==> r in order)
    && paths[RootRef(root)] == []
    && (forall k :: 1 <= k < |order| ==>
          exists p :: (0 <= p < k && order[k] in Deps(w, order[p])
            && paths[order[k]] == paths[order[p]] + [order[k]]))
    && (forall p, i :: 0 <= p < |order| && 0 <= i < |Deps(w, order[p])| ==>
          Deps(w, order[p])[i] in paths && |paths[Deps(w, order[p])[i]]| <= |paths[order[p]]| + 1)
    && (forall i, j :: 0 <= i < j < |order| ==> |paths[order[i]]| <= |paths[order[j]]|)
  }

  /** The bookkeeping shared by every point of the traversal: `parent[k]`
      is the earlier reference whose dependency list gave `order[k]`, and
      only references before `lim` have been expanded. */
  ghost predicate Reached(w: World, root: ObjId, all: set<Ref>, order: seq<Ref>, paths: map<Ref, seq<Ref>>,
                          parent: seq<nat>, total: nat, lim: nat)
  {
    ReachedSet(root, all, order, paths, total) && ReachedTree(w, order, paths, parent, lim)
  }

  /** The reached references: the root first, no repeats, a path for
      exactly the references in the order, and the count still to reach. */
  ghost predicate ReachedSet(root: ObjId, all: set<Ref>, order: seq<Ref>, paths: map<Ref, seq<Ref>>, total: nat) {
    && |order| >= 1 && order[0] == RootRef(root)
    && RootRef(root) in paths && paths[RootRef(root)] == []
    && (forall i, j :: 0 <= i < j < |order| ==> order[i] != order[j])
    && (forall r :: r in paths <==> r in order)
    && (forall r :: r in paths ==> r in all)
    && |all - paths.Keys| + |order| == total
  }

  /** The shape of the recorded paths: each extends its parent's by one
      step, and their lengths never decrease along the order. */
  ghost predicate ReachedTree(w: World, order: seq<Ref>, paths: map<Ref, seq<Ref>>, parent: seq<nat>, lim: nat) {
    && (forall k :: 0 <= k < |order| ==> order[k] in paths)
    && |parent| == |order|
    && (forall k :: 1 <= k < |order| ==>
          && parent[k] < k && parent[k] < lim
          && order[k] in Deps(w, order[parent[k]])
          && paths[order[k]] == paths[order[parent[k]]] + [order[k]])
    && (forall i, j :: 0 <= i < j < |order| ==> |paths[order[i]]| <= |paths[order[j]]|)
  }

  /** Every dependency of the first `upto` references is reached, at most one
      step further than the reference it hangs from. */
  ghost predicate Relaxed(w: World, order: seq<Ref>, paths: map<Ref, seq<Ref>>, upto: nat)
    requires upto <= |order| && forall j :: 0 <= j < |order| ==> order[j] in paths
  {
    forall p, i :: 0 <= p < upto && 0 <= i < |Deps(w, order[p])| ==>
      Deps(w, order[p])[i] in paths && |paths[Deps(w, order[p])[i]]| <= |paths[order[p]]| + 1
  }

  /** No reached reference is more than `level` steps from the root. */
  ghost predicate LevelsAtMost(order: seq<Ref>, paths: map<Ref, seq<Ref>>, level: nat)
    requires forall j :: 0 <= j < |order| ==> order[j] in paths
  {
    forall j :: 0 <= j < |order| ==> |paths[order[j]]| <= level
  }

  /** Recording a new dependency `child` of `order[head]` keeps the
      bookkeeping. */
  lemma AddChildReached(w: World, root: ObjId, all: set<Ref>, order: seq<Ref>, paths: map<Ref, seq<Ref>>,
                        parent: seq<nat>, total: nat, head: nat, child: Ref)
    requires Reached(w, root, all, order, paths, parent, total, head + 1)
    requires head < |order| && LevelsAtMost(order, paths, |paths[order[head]]| + 1)
    requires child in all && child !in paths && child in Deps(w, order[head])
    ensures Reached(w, root, all, order + [child], paths[child := paths[order[head]] + [child]],
                    parent + [head], total, head + 1)
  {
    AddChildSet(root, all, order, paths, total, paths[order[head]] + [child], child);
    AddChildTree(w, order, paths, parent, head, child);
  }

  lemma AddChildSet(root: ObjId, all: set<Ref>, order: seq<Ref>, paths: map<Ref, seq<Ref>>, total: nat,
                    path: seq<Ref>, child: Ref)
    requires ReachedSet(root, all, order, paths, total)
    requires child in all && child !in paths
    ensures ReachedSet(root, all, order + [child], paths[child := path], total)
  {
    var paths' := paths[child := path];
    assert all - (paths.Keys + {child}) + {child} == all - paths.Keys;
    assert paths'.Keys == paths.Keys + {child};
  }

  lemma AddChildTree(w: World, order: seq<Ref>, paths: map<Ref, seq<Ref>>, parent: seq<nat>, head: nat, child: Ref)
    requires ReachedTree(w, order, paths, parent, head + 1)
    requires head < |order| && LevelsAtMost(order, paths, |paths[order[head]]| + 1)
    requires child !in paths && child in Deps(w, order[head])
    ensures ReachedTree(w, order + [child], paths[child := paths[order[head]] + [child]], parent + [head], head + 1)
  {
    var paths' := paths[child := paths[order[head]] + [child]];
    var order' := order + [child];
    var parent' := parent + [head];
    forall k | 1 <= k < |order'|
      ensures paths'[order'[k]] == paths'[order'[parent'[k]]] + [order'[k]]
    {
      if k < |order| {
        assert order'[k] == order[k] && order'[parent'[k]] == order[parent[k]];
      }
    }
  }

  /** Recording a new reference keeps the expanded references relaxed and
      the level bound. */
  lemma AddChildRelaxed(w: World, order: seq<Ref>, paths: map<Ref, seq<Ref>>, head: nat, child: Ref)
    requires head < |order| && forall j :: 0 <= j < |order| ==> order[j] in paths
    requires Relaxed(w, order, paths, head) && LevelsAtMost(order, paths, |paths[order[head]]| + 1)
    requires child !in paths
    ensures var paths' := paths[child := paths[order[head]] + [child]];
      var order' := order + [child];
      && (forall j :: 0 <= j < |order'| ==> order'[j] in paths')
      && Relaxed(w, order', paths', head)
      && LevelsAtMost(order', paths', |paths[order[head]]| + 1)
  {
    var paths' := paths[child := paths[order[head]] + [child]];
    var order' := order + [child];
    assert forall j :: 0 <= j < |order| ==> order'[j] == order[j] && paths'[order[j]] == paths[order[j]];
  }

  /** The state before any reference is expanded. */
  lemma InitReached(w: World, root: ObjId)
    ensures var paths := map[RootRef(root) := []];
      Reached(w, root, AllRefs(w, root), [RootRef(root)], paths, [0],
              |AllRefs(w, root) - paths.Keys| + 1, 0)
  {
  }

  /** Once every reference is expanded, the bookkeeping is a traversal. */
  lemma ReachedIsTraversal(w: World, root: ObjId, all: set<Ref>, order: seq<Ref>, paths: map<Ref, seq<Ref>>,
                           parent: seq<nat>, total: nat)
    requires Reached(w, root, all, order, paths, parent, total, |order|)
    requires Relaxed(w, order, paths, |order|)
    ensures IsTraversal(w, root, order, paths)
  {
    forall k | 1 <= k < |order|
      ensures exists p :: (0 <= p < k && order[k] in Deps(w, order[p])
        && paths[order[k]] == paths[order[p]] + [order[k]])
    {
      var p := parent[k];
      assert 0 <= p < k && order[k] in Deps(w, order[p]);
    }
  }

  /** Starting to expand `order[head]`: the head's level bounds every level. */
  lemma EnterExpand(w: World, root: ObjId, all: set<Ref>, order: seq<Ref>, paths: map<Ref, seq<Ref>>,
                    parent: seq<nat>, total: nat, head: nat)
    requires head < |order|
    requires Reached(w, root, all, order, paths, parent, total, head)
    requires LevelsAtMost(order, paths, (if head == 0 then 0 else |paths[order[head - 1]]|) + 1)
    ensures Reached(w, root, all, order, paths, parent, total, head + 1)
    ensures LevelsAtMost(order, paths, |paths[order[head]]| + 1)
  {
    if head > 0 {
      assert |paths[order[head - 1]]| <= |paths[order[head]]|;
    }
  }

  /** Finishing the expansion of `order[head]`: all its dependencies are reached. */
  lemma LeaveExpand(w: World, order: seq<Ref>, paths: map<Ref, seq<Ref>>, head: nat)
    requires head < |order| && forall j :: 0 <= j < |order| ==> order[j] in paths
    requires Relaxed(w, order, paths, head)
    requires forall i :: 0 <= i < |Deps(w, order[head])| ==>
      Deps(w, order[head])[i] in paths && |paths[Deps(w, order[head])[i]]| <= |paths[order[head]]| + 1
    ensures Relaxed(w, order, paths, head + 1)
  {
  }

  /** The first position of `x` in `ds`, or `|ds|` when it is absent. */
  function PositionIn(ds: seq<Ref>, x: Ref): (i: nat)
    ensures i <= |ds| && (i < |ds| ==> ds[i] == x)
    ensures forall j :: 0 <= j < i ==> ds[j] != x
  {
    if |ds| == 0 || ds[0] == x then 0
    else
      var i := PositionIn(ds[1..], x);
      assert forall j :: 1 <= j < i + 1 ==> ds[j] == ds[1..][j - 1];
      i + 1
  }

  /** The first reference at or after `from` in the order whose dependencies
      list `x`, or `|order|` when there is none. */
  function DiscovererFrom(w: World, order: seq<Ref>, x: Ref, from: nat): (p: nat)
    requires from <= |order|
    ensures from <= p <= |order| && (p < |order| ==> x in Deps(w, order[p]))
    ensures forall q :: from <= q < p ==> x !in Deps(w, order[q])
    decreases |order| - from
  {
    if from == |order| || x in Deps(w, order[from]) then from
    else DiscovererFrom(w, order, x, from + 1)
  }

  /** Which reference of the order discovers `order[k]`: the first whose
      dependencies list it. */
  function Discoverer(w: World, order: seq<Ref>, k: nat): nat
    requires k < |order|
  {
    DiscovererFrom(w, order, order[k], 0)
  }

  /** Where `order[k]` sits in its discoverer's dependency list. */
  function DiscoverySlot(w: World, order: seq<Ref>, k: nat): nat
    requires k < |order|
  {
    var p := Discoverer(w, order, k);
    if p < |order| then PositionIn(Deps(w, order[p]), order[k]) else 0
  }

  /** The queue order of a traversal: every reference but the root takes
      its path from the first earlier reference whose dependencies list it,
      and the references come in the order they entered the FIFO queue, by
      their discoverer and then by their first place in its dependencies. */
  ghost predicate IsQueueOrder(w: World, order: seq<Ref>, paths: map<Ref, seq<Ref>>) {
    && (forall k :: 1 <= k < |order| ==>
          && Discoverer(w, order, k) < k
          && order[k] in paths && order[Discoverer(w, order, k)] in paths
          && paths[order[k]] == paths[order[Discoverer(w, order, k)]] + [order[k]])
    && (forall k, k' :: 1 <= k < k' < |order| ==>
          || Discoverer(w, order, k) < Discoverer(w, order, k')
          || (Discoverer(w, order, k) == Discoverer(w, order, k')
              && DiscoverySlot(w, order, k) < DiscoverySlot(w, order, k')))
  }

  /** The queue bookkeeping: `parent[k]` is the first reference whose
      dependencies list `order[k]`, and `slot[k]` is the first place of
      `order[k]` in them. */
  ghost predicate QueuedLinks(w: World, order: seq<Ref>, parent: seq<nat>, slot: seq<nat>) {
    && |parent| == |order| && |slot| == |order|
    && forall k :: 1 <= k < |order| ==> QueuedLink(w, order, parent[k], slot[k], k)
  }

  /** `order[k]` is dependency `s` of `order[p]`, listed by no earlier
      reference and at no earlier place of that list. */
  ghost predicate QueuedLink(w: World, order: seq<Ref>, p: nat, s: nat, k: nat)
    requires k < |order|
  {
    && p < |order| && s < |Deps(w, order[p])| && Deps(w, order[p])[s] == order[k]
    && (forall q :: 0 <= q < p ==> order[k] !in Deps(w, order[q]))
    && (forall i :: 0 <= i < s ==> Deps(w, order[p])[i] != order[k])
  }

  /** A link survives appending to the order. */
  lemma QueuedLinkKept(w: World, order: seq<Ref>, p: nat, s: nat, k: nat, x: Ref)
    requires k < |order| && QueuedLink(w, order, p, s, k)
    ensures QueuedLink(w, order + [x], p, s, k)
  {
    var order' := order + [x];
    assert order'[k] == order[k] && order'[p] == order[p];
    assert forall q :: 0 <= q < p ==> order'[q] == order[q];
  }

  /** The link of a newly queued dependency. */
  lemma QueuedLinkNew(w: World, order: seq<Ref>, paths: map<Ref, seq<Ref>>, head: nat, c: nat)
    requires head < |order| && c < |Deps(w, order[head])| && Deps(w, order[head])[c] !in paths
    requires forall q, i :: 0 <= q < head && 0 <= i < |Deps(w, order[q])| ==> Deps(w, order[q])[i] in paths
    requires forall i :: 0 <= i < c ==> Deps(w, order[head])[i] in paths
    ensures QueuedLink(w, order + [Deps(w, order[head])[c]], head, c, |order|)
  {
    var child := Deps(w, order[head])[c];
    var order' := order + [child];
    assert order'[head] == order[head] && order'[|order|] == child;
    forall q | 0 <= q < head ensures child !in Deps(w, order'[q]) {
      assert order'[q] == order[q];
    }
  }

  /** Every queued reference was discovered before position `c` of the
      dependencies of `order[head]`. */
  ghost predicate QueuedBefore(parent: seq<nat>, slot: seq<nat>, head: nat, c: nat)
    requires |parent| == |slot|
  {
    forall k :: 1 <= k < |parent| ==> parent[k] < head || (parent[k] == head && slot[k] < c)
  }

  /** The references were queued by increasing discoverer, then slot. */
  ghost predicate QueuedSorted(parent: seq<nat>, slot: seq<nat>)
    requires |parent| == |slot|
  {
    forall k, k' :: 1 <= k < k' < |parent| ==>
      parent[k] < parent[k'] || (parent[k] == parent[k'] && slot[k] < slot[k'])
  }

  /** The queue bookkeeping at one point of the expansion of `order[head]`. */
  ghost predicate Queued(w: World, order: seq<Ref>, parent: seq<nat>, slot: seq<nat>, head: nat, c: nat) {
    QueuedLinks(w, order, parent, slot) && QueuedBefore(parent, slot, head, c) && QueuedSorted(parent, slot)
  }

  /** Queueing dependency `c` of `order[head]`, when it was not reached
      before, keeps the queue bookkeeping. */
  lemma AddChildQueued(w: World, order: seq<Ref>, paths: map<Ref, seq<Ref>>, parent: seq<nat>, slot: seq<nat>,
                       head: nat, c: nat)
    requires Queued(w, order, parent, slot, head, c)
    requires head < |order| && c < |Deps(w, order[head])| && Deps(w, order[head])[c] !in paths
    requires forall q, i :: 0 <= q < head && 0 <= i < |Deps(w, order[q])| ==> Deps(w, order[q])[i] in paths
    requires forall i :: 0 <= i < c ==> Deps(w, order[head])[i] in paths
    ensures Queued(w, order + [Deps(w, order[head])[c]], parent + [head], slot + [c], head, c + 1)
  {
    var child := Deps(w, order[head])[c];
    var order' := order + [child];
    var parent' := parent + [head];
    var slot' := slot + [c];
    forall k | 1 <= k < |order'| ensures QueuedLink(w, order', parent'[k], slot'[k], k) {
      if k < |order| {
        QueuedLinkKept(w, order, parent[k], slot[k], k, child);
      } else {
        QueuedLinkNew(w, order, paths, head, c);
      }
    }
  }

  /** Every dependency of `order[head]` is queued: the next head starts. */
  lemma QueuedNextHead(parent: seq<nat>, slot: seq<nat>, head: nat, c: nat)
    requires |parent| == |slot| && QueuedBefore(parent, slot, head, c)
    ensures QueuedBefore(parent, slot, head + 1, 0)
  {
  }

  /** A reference whose dependencies list `x`, none before it doing so, is
      its discoverer. */
  lemma DiscovererIs(w: World, order: seq<Ref>, k: nat, p: nat)
    requires k < |order| && p < |order| && order[k] in Deps(w, order[p])
    requires forall q :: 0 <= q < p ==> order[k] !in Deps(w, order[q])
    ensures Discoverer(w, order, k) == p
  {
  }

  /** The first place of `x` in `ds` is its position. */
  lemma PositionInIs(ds: seq<Ref>, x: Ref, i: nat)
    requires i < |ds| && ds[i] == x && forall j :: 0 <= j < i ==> ds[j] != x
    ensures PositionIn(ds, x) == i
  {
  }

  /** Once every reference is expanded, the queue bookkeeping names each
      reference's discoverer and slot: the order is the queue order. */
  lemma QueuedIsQueueOrder(w: World, order: seq<Ref>, paths: map<Ref, seq<Ref>>, parent: seq<nat>, slot: seq<nat>)
    requires QueuedLinks(w, order, parent, slot) && QueuedSorted(parent, slot)
    requires ReachedTree(w, order, paths, parent, |order|)
    ensures IsQueueOrder(w, order, paths)
  {
    forall k | 1 <= k < |order|
      ensures Discoverer(w, order, k) == parent[k] && DiscoverySlot(w, order, k) == slot[k]
    {
      DiscovererIs(w, order, k, parent[k]);
      PositionInIs(Deps(w, order[parent[k]]), order[k], slot[k]);
    }
  }

  /** The state while `order[head]` is being expanded. */
  ghost predicate Expanding(w: World, root: ObjId, all: set<Ref>, order: seq<Ref>, paths: map<Ref, seq<Ref>>,
                            parent: seq<nat>, total: nat, head: nat, headPath: seq<Ref>)
  {
    && head < |order|
    && Reached(w, root, all, order, paths, parent, total, head + 1)
    && Relaxed(w, order, paths, head)
    && paths[order[head]] == headPath
    && LevelsAtMost(order, paths, |headPath| + 1)
  }

  /** The first `c` dependencies of `order[head]` are reached, at most one
      step further than the head. */
  ghost predicate Scanned(w: World, order: seq<Ref>, paths: map<Ref, seq<Ref>>, head: nat, headPath: seq<Ref>, c: nat)
    requires head < |order|
  {
    && c <= |Deps(w, order[head])|
    && forall i :: 0 <= i < c ==>
         Deps(w, order[head])[i] in paths && |paths[Deps(w, order[head])[i]]| <= |headPath| + 1
  }

  /** Recording a new dependency `child` of the head keeps the expansion
      state, and reaches one more reference. */
  lemma AddChildExpanding(w: World, root: ObjId, all: set<Ref>, order: seq<Ref>, paths: map<Ref, seq<Ref>>,
                          parent: seq<nat>, total: nat, head: nat, headPath: seq<Ref>, child: Ref)
    requires Expanding(w, root, all, order, paths, parent, total, head, headPath)
    requires child in all && child in Deps(w, order[head]) && child !in paths
    ensures var paths' := paths[child := paths[order[head]] + [child]];
      && Expanding(w, root, all, order + [child], paths', parent + [head], total, head, headPath)
      && |all - paths'.Keys| + |order + [child]| == |all - paths.Keys| + |order|
  {
    AddChildReached(w, root, all, order, paths, parent, total, head, child);
    AddChildRelaxed(w, order, paths, head, child);
    assert all - (paths.Keys + {child}) + {child} == all - paths.Keys;
  }

  /** Recording dependency `c` of the head scans one more dependency. */
  lemma AddChildScanned(w: World, order: seq<Ref>, paths: map<Ref, seq<Ref>>, head: nat, headPath: seq<Ref>, c: nat)
    requires head < |order| && Scanned(w, order, paths, head, headPath, c) && c < |Deps(w, order[head])|
    requires order[head] in paths && paths[order[head]] == headPath && Deps(w, order[head])[c] !in paths
    ensures var child := Deps(w, order[head])[c];
      Scanned(w, order + [child], paths[child := headPath + [child]], head, headPath, c + 1)
  {
    var child := Deps(w, order[head])[c];
    var paths' := paths[child := headPath + [child]];
    assert (order + [child])[head] == order[head];
    forall i | 0 <= i < c + 1
      ensures Deps(w, order[head])[i] in paths' && |paths'[Deps(w, order[head])[i]]| <= |headPath| + 1
    {
      if i < c {
        assert paths'[Deps(w, order[head])[i]] == paths[Deps(w, order[head])[i]];
      }
    }
  }

  /** Visiting one dependency of `order[head]`: a new one is appended. */
  method Visit(w: World, ghost root: ObjId, ghost all: set<Ref>, order: seq<Ref>, paths: map<Ref, seq<Ref>>,
               ghost parent: seq<nat>, ghost slot: seq<nat>, ghost total: nat, head: nat, ghost headPath: seq<Ref>,
               ghost c: nat, child: Ref)
    returns (order': seq<Ref>, paths': map<Ref, seq<Ref>>, ghost parent': seq<nat>, ghost slot': seq<nat>)
    requires Expanding(w, root, all, order, paths, parent, total, head, headPath)
    requires child in all && c < |Deps(w, order[head])| && Deps(w, order[head])[c] == child
    requires Queued(w, order, parent, slot, head, c) && Scanned(w, order, paths, head, headPath, c)
    ensures Expanding(w, root, all, order', paths', parent', total, head, headPath)
    ensures Queued(w, order', parent', slot', head, c + 1)
    ensures order'[head] == order[head] && Scanned(w, order', paths', head, headPath, c + 1)
    ensures paths.Keys <= paths'.Keys && |order| <= |order'|
    ensures forall r :: r in paths ==> paths'[r] == paths[r]
    ensures |all - paths'.Keys| + |order'| == |all - paths.Keys| + |order|
    ensures |all - paths'.Keys| == |all - paths.Keys| ==> |order'| == |order|
  {
    if child in paths {
      assert |paths[child]| <= |headPath| + 1;
      return order, paths, parent, slot;
    }
    AddChildExpanding(w, root, all, order, paths, parent, total, head, headPath, child);
    AddChildQueued(w, order, paths, parent, slot, head, c);
    AddChildScanned(w, order, paths, head, headPath, c);
    paths' := paths[child := paths[order[head]] + [child]];
    parent' := parent + [head];
    slot' := slot + [c];
    order' := order + [child];
  }

  /** Visiting the dependencies of `order[head]` from position `c` on. */
  method VisitFrom(w: World, ghost root: ObjId, ghost all: set<Ref>, order: seq<Ref>, paths: map<Ref, seq<Ref>>,
                   ghost parent: seq<nat>, ghost slot: seq<nat>, ghost total: nat, head: nat,
                   ghost headPath: seq<Ref>, c: nat)
    returns (order': seq<Ref>, paths': map<Ref, seq<Ref>>, ghost parent': seq<nat>, ghost slot': seq<nat>)
    requires all == AllRefs(w, root)
    requires Expanding(w, root, all, order, paths, parent, total, head, headPath)
    requires Queued(w, order, parent, slot, head, c) && Scanned(w, order, paths, head, headPath, c)
    ensures Expanding(w, root, all, order', paths', parent', total, head, headPath)
    ensures Queued(w, order', parent', slot', head, |Deps(w, order[head])|)
    ensures order'[head] == order[head] && Scanned(w, order', paths', head, headPath, |Deps(w, order[head])|)
    ensures paths.Keys <= paths'.Keys && |order| <= |order'|
    ensures |all - paths'.Keys| + |order'| == |all - paths.Keys| + |order|
    decreases |Deps(w, order[head])| - c
  {
    var children := Deps(w, order[head]);
    if c == |children| {
      return order, paths, parent, slot;
    }
    assert order[head] in all;
    var o, p, q, sl := Visit(w, root, all, order, paths, parent, slot, total, head, headPath, c, children[c]);
    order', paths', parent', slot' := VisitFrom(w, root, all, o, p, q, sl, total, head, headPath, c + 1);
  }

  /** Expanding `order[head]`: each dependency not reached before is
      appended with a path one step longer than the head's. */
  method Expand(w: World, ghost root: ObjId, ghost all: set<Ref>, order: seq<Ref>, paths: map<Ref, seq<Ref>>,
                ghost parent: seq<nat>, ghost slot: seq<nat>, ghost total: nat, head: nat)
    returns (order': seq<Ref>, paths': map<Ref, seq<Ref>>, ghost parent': seq<nat>, ghost slot': seq<nat>)
    requires head < |order| && all == AllRefs(w, root)
    requires Reached(w, root, all, order, paths, parent, total, head)
    requires Queued(w, order, parent, slot, head, 0)
    requires Relaxed(w, order, paths, head)
    requires LevelsAtMost(order, paths, (if head == 0 then 0 else |paths[order[head - 1]]|) + 1)
    ensures head < |order'| && Reached(w, root, all, order', paths', parent', total, head + 1)
    ensures Queued(w, order', parent', slot', head + 1, 0)
    ensures Relaxed(w, order', paths', head + 1)
    ensures LevelsAtMost(order', paths', |paths'[order'[head]]| + 1)
    ensures paths.Keys <= paths'.Keys && |order| <= |order'|
    ensures |all - paths'.Keys| + |order'| == |all - paths.Keys| + |order|
  {
    EnterExpand(w, root, all, order, paths, parent, total, head);
    order', paths', parent', slot' := VisitFrom(w, root, all, order, paths, parent, slot, total, head, paths[order[head]], 0);
    LeaveExpand(w, order', paths', head);
    QueuedNextHead(parent', slot', head, |Deps(w, order[head])|);
  }

  /** `_breadth_first_checkpointable_traversal`: visit references level by
      level from the root, recording for each the first path found. */
  method BreadthFirst(w: World, root: ObjId) returns (order: seq<Ref>, paths: map<Ref, seq<Ref>>)
    ensures IsTraversal(w, root, order, paths)
    ensures IsQueueOrder(w, order, paths)
  {
    ghost var all := AllRefs(w, root);
    order := [RootRef(root)];
    paths := map[RootRef(root) := []];
    ghost var parent: seq<nat> := [0];
    ghost var slot: seq<nat> := [0];
    ghost var total := |all - paths.Keys| + 1;
    InitReached(w, root);
    var head := 0;
    while head < |order|
      invariant 0 <= head <= |order|
      invariant Reached(w, root, all, order, paths, parent, total, head)
      invariant Queued(w, order, parent, slot, head, 0)
      invariant Relaxed(w, order, paths, head)
      invariant LevelsAtMost(order, paths, (if head == 0 then 0 else |paths[order[head - 1]]|) + 1)
      decreases |all - paths.Keys|, |order| - head
    {
      order, paths, parent, slot := Expand(w, root, all, order, paths, parent, slot, total, head);
      head := head + 1;
    }
    ReachedIsTraversal(w, root, all, order, paths, parent, total);
    QueuedIsQueueOrder(w, order, paths, parent, slot);
  }

  /** Every path of a traversal is a chain of dependency edges from the
      root ending at the reference it belongs to. */
  lemma {:induction false} TraversalPathIsChain(w: World, root: ObjId, order: seq<Ref>,
                                                paths: map<Ref, seq<Ref>>, k: nat)
    requires IsTraversal(w, root, order, paths) && 1 <= k < |order|
    ensures ChainFrom(w, RootRef(root), paths[order[k]])
    ensures paths[order[k]][|paths[order[k]]| - 1] == order[k]
    decreases k
  {
    var p :| 0 <= p < k && order[k] in Deps(w, order[p]) && paths[order[k]] == paths[order[p]] + [order[k]];
    if p > 0 {
      TraversalPathIsChain(w, root, order, paths, p);
      ChainExtend(w, RootRef(root), paths[order[p]], order[k]);
    } else {
      assert paths[order[k]] == [order[k]];
    }
  }

  /** A chain followed by a dependency of its end is a chain. */
  lemma ChainExtend(w: World, start: Ref, c: seq<Ref>, x: Ref)
    requires ChainFrom(w, start, c) && x in Deps(w, c[|c| - 1])
    ensures ChainFrom(w, start, c + [x])
  {
    var c' := c + [x];
    forall i | 0 <= i < |c'| - 1 ensures c'[i + 1] in Deps(w, c'[i]) {
      if i < |c| - 1 {
        assert c'[i] == c[i] && c'[i + 1] == c[i + 1];
      }
    }
  }

  /** No chain of dependency edges from the root is shorter than the path
      the traversal recorded for its end. */
  lemma {:induction false} TraversalPathIsShortest(w: World, root: ObjId, order: seq<Ref>,
                                                   paths: map<Ref, seq<Ref>>, c: seq<Ref>)
    requires IsTraversal(w, root, order, paths) && ChainFrom(w, RootRef(root), c)
    ensures c[|c| - 1] in paths && |paths[c[|c| - 1]]| <= |c|
    decreases |c|
  {
    var last := c[|c| - 1];
    if |c| == 1 {
      var i :| 0 <= i < |Deps(w, order[0])| && Deps(w, order[0])[i] == last;
    } else {
      var c' := c[..|c| - 1];
      assert ChainFrom(w, RootRef(root), c');
      TraversalPathIsShortest(w, root, order, paths, c');
      var prev := c'[|c'| - 1];
      var p :| 0 <= p < |order| && order[p] == prev;
      assert last in Deps(w, prev);
      var i :| 0 <= i < |Deps(w, order[p])| && Deps(w, order[p])[i] == last;
    }
  }

  // ---------------------------------------------------------------------------
  // Checkpoint keys
  // ---------------------------------------------------------------------------

  /** Every object's bookkeeping is consistent. */
  ghost predicate WorldConsistent(w: World) {
    forall id :: id in w.objects ==> Consistent(w.objects[id])
  }

  /** A named dependency of any object in a consistent world has a valid name. */
  lemma DependencyNameValid(w: World, r: Ref, x: Ref)
    requires WorldConsistent(w) && x in Deps(w, r) && x.name.Some?
    ensures ValidLocalName(x.name.value)
  {
    var deps := w.objects[r.target].deps;
    var i :| 0 <= i < |deps| && deps[i] == x;
  }

  /** A path component: the local name, or the declaration index when the
      dependency has no (or an empty) name. */
  function ComponentName(r: Ref): (s: string)
    ensures |s| >= 1
    ensures r.name.None? ==> s == Decimal.NatToString(r.localUid)
  {
    if r.name.Some? && r.name.value != "" then r.name.value else Decimal.NatToString(r.localUid)
  }

  function ComponentNames(path: seq<Ref>): (names: seq<string>)
    ensures |names| == |path|
    ensures forall i :: 0 <= i < |path| ==> names[i] == ComponentName(path[i])
  {
    seq(|path|, i requires 0 <= i < |path| => ComponentName(path[i]))
  }

  /** `_name_from_path`: the components joined with '/'. */
  function NameFromPath(path: seq<Ref>): string {
    Strings.Join("/", ComponentNames(path))
  }

  /** A non-empty path gives a non-empty prefix. */
  lemma NameFromPathNonEmpty(path: seq<Ref>)
    requires |path| >= 1
    ensures |NameFromPath(path)| >= 1
  {
    var names := ComponentNames(path);
    if |names| > 1 {
      assert NameFromPath(path) == names[0] + "/" + Strings.Join("/", names[1..]);
    }
  }

  /** When every named component is valid, splitting the prefix at '/'
      gives back the components. */
  lemma NameFromPathSplits(path: seq<Ref>)
    requires |path| >= 1
    requires forall i :: 0 <= i < |path| && path[i].name.Some? ==> ValidLocalName(path[i].name.value)
    ensures Strings.Split(NameFromPath(path), "/") == ComponentNames(path)
  {
    var names := ComponentNames(path);
    forall k | 0 <= k < |names| ensures '/' !in names[k] {
      if path[k].name.Some? && path[k].name.value != "" {
        ValidNameHasNoSlash(path[k].name.value);
      } else {
        Decimal.DigitsHaveNoSeparator(Decimal.NatToString(path[k].localUid), '/');
      }
    }
    Strings.SplitJoin(names, '/');
  }

  /** In a consistent world, the prefix of every traversed reference other
      than the root splits back into its path's components. */
  lemma TraversalPrefixSplits(w: World, root: ObjId, order: seq<Ref>, paths: map<Ref, seq<Ref>>, k: nat)
    requires WorldConsistent(w) && IsTraversal(w, root, order, paths) && 1 <= k < |order|
    ensures Strings.Split(NameFromPath(paths[order[k]]), "/") == ComponentNames(paths[order[k]])
  {
    TraversalPathIsChain(w, root, order, paths, k);
    var c := paths[order[k]];
    forall i | 0 <= i < |c| && c[i].name.Some? ensures ValidLocalName(c[i].name.value) {
      if i == 0 {
        DependencyNameValid(w, RootRef(root), c[0]);
      } else {
        DependencyNameValid(w, c[i - 1], c[i]);
      }
    }
    NameFromPathSplits(c);
  }

  /** The key of a variable: the owner's prefix and the local name, or the
      bare local name for the root's own variables. */
  function VarKey(prefix: string, name: string): string {
    if prefix != "" then prefix + "/" + name else name
  }

  /** The variables an object owns (none for an unknown object). */
  function Owned(w: World, r: Ref): seq<OwnedVariable> {
    if r.target in w.objects then w.objects[r.target].vars else []
  }

  /** A sequence of dictionary assignments `d[key] = value`, in order. */
  type Writes = seq<(string, VarId)>

  /** The dictionary the assignments leave: the last write of a key wins. */
  function ToMap(ws: Writes): (m: map<string, VarId>)
    ensures forall i :: 0 <= i < |ws| ==> ws[i].0 in m
    ensures forall k :: k in m ==> exists i :: 0 <= i < |ws| && ws[i].0 == k
  {
    if |ws| == 0 then map[]
    else
      var m := ToMap(ws[..|ws| - 1]);
      assert forall i :: 0 <= i < |ws| - 1 ==> ws[..|ws| - 1][i] == ws[i];
      m[ws[|ws| - 1].0 := ws[|ws| - 1].1]
  }

  /** The value stored under a key is the one its last write gave. */
  lemma {:induction false} ToMapLastWins(ws: Writes, i: nat)
    requires i < |ws| && forall j :: i < j < |ws| ==> ws[j].0 != ws[i].0
    ensures ToMap(ws)[ws[i].0] == ws[i].1
    decreases |ws|
  {
    if i < |ws| - 1 {
      var ws' := ws[..|ws| - 1];
      assert forall j :: i < j < |ws'| ==> ws'[j] == ws[j];
      ToMapLastWins(ws', i);
    }
  }

  /** `v` is the value of the last write of `key` in `ws`. */
  ghost predicate LastWrite(ws: Writes, key: string, v: VarId) {
    exists i :: 0 <= i < |ws| && ws[i] == (key, v) && forall j :: i < j < |ws| ==> ws[j].0 != key
  }

  /** Every key of the dictionary holds the value of its last write. */
  lemma {:induction false} ToMapIsLastWrite(ws: Writes)
    ensures forall k :: k in ToMap(ws) ==> LastWrite(ws, k, ToMap(ws)[k])
  {
    if |ws| > 0 {
      var init := ws[..|ws| - 1];
      var last := ws[|ws| - 1];
      ToMapIsLastWrite(init);
      assert ws == init + [last];
      forall k | k in ToMap(ws) ensures LastWrite(ws, k, ToMap(ws)[k]) {
        if k == last.0 {
          assert ws[|ws| - 1] == (k, ToMap(ws)[k]);
        } else {
          assert ToMap(ws)[k] == ToMap(init)[k];
          LastWriteExtend(init, last, k, ToMap(init)[k]);
        }
      }
    }
  }

  /** A write of another key leaves the last write of `key` in place. */
  lemma LastWriteExtend(ws: Writes, e: (string, VarId), key: string, v: VarId)
    requires LastWrite(ws, key, v) && e.0 != key
    ensures LastWrite(ws + [e], key, v)
  {
    var i :| 0 <= i < |ws| && ws[i] == (key, v) && forall j :: i < j < |ws| ==> ws[j].0 != key;
    var ws' := ws + [e];
    assert ws'[i] == ws[i];
    assert forall j :: i < j < |ws'| ==> ws'[j].0 != key by {
      forall j | i < j < |ws'| ensures ws'[j].0 != key {
        if j < |ws| { assert ws'[j] == ws[j]; }
      }
    }
  }

  /** The writes of the owned variables of one reference. */
  function VarWrites(prefix: string, vars: seq<OwnedVariable>): Writes {
    seq(|vars|, i requires 0 <= i < |vars| => (VarKey(prefix, vars[i].name), vars[i].variable))
  }

  /** The first pass: every traversed reference's variables, in traversal
      order. */
  function FirstPassWrites(w: World, order: seq<Ref>, paths: map<Ref, seq<Ref>>): Writes
    requires forall j :: 0 <= j < |order| ==> order[j] in paths
  {
    if |order| == 0 then []
    else
      var last := order[|order| - 1];
      FirstPassWrites(w, order[..|order| - 1], paths) + VarWrites(NameFromPath(paths[last]), Owned(w, last))
  }

  /** `key` names variable `i` of traversed reference `j`. */
  ghost predicate IsVariableKey(w: World, order: seq<Ref>, paths: map<Ref, seq<Ref>>, key: string)
    requires forall j :: 0 <= j < |order| ==> order[j] in paths
  {
    exists j, i :: 0 <= j < |order| && 0 <= i < |Owned(w, order[j])|
      && key == VarKey(NameFromPath(paths[order[j]]), Owned(w, order[j])[i].name)
  }

  /** The first pass writes exactly the variables of the traversed
      references, each under its key. */
  lemma FirstPassWritesSpec(w: World, order: seq<Ref>, paths: map<Ref, seq<Ref>>)
    requires forall j :: 0 <= j < |order| ==> order[j] in paths
    ensures forall e :: e in FirstPassWrites(w, order, paths) ==> IsVariableKey(w, order, paths, e.0)
    ensures forall j, i :: 0 <= j < |order| && 0 <= i < |Owned(w, order[j])| ==>
      (VarKey(NameFromPath(paths[order[j]]), Owned(w, order[j])[i].name), Owned(w, order[j])[i].variable)
        in FirstPassWrites(w, order, paths)
  {
    FirstPassWritesSound(w, order, paths);
    FirstPassWritesComplete(w, order, paths);
  }

  lemma {:induction false} FirstPassWritesSound(w: World, order: seq<Ref>, paths: map<Ref, seq<Ref>>)
    requires forall j :: 0 <= j < |order| ==> order[j] in paths
    ensures forall e :: e in FirstPassWrites(w, order, paths) ==> IsVariableKey(w, order, paths, e.0)
  {
    if |order| > 0 {
      var order' := order[..|order| - 1];
      var last := order[|order| - 1];
      FirstPassWritesSound(w, order', paths);
      var ws := FirstPassWrites(w, order, paths);
      var vw := VarWrites(NameFromPath(paths[last]), Owned(w, last));
      assert ws == FirstPassWrites(w, order', paths) + vw;
      forall e | e in ws ensures IsVariableKey(w, order, paths, e.0) {
        if e in vw {
          var i :| 0 <= i < |vw| && vw[i] == e;
          assert order[|order| - 1] == last;
        } else {
          assert IsVariableKey(w, order', paths, e.0);
          var j, i :| 0 <= j < |order'| && 0 <= i < |Owned(w, order'[j])|
            && e.0 == VarKey(NameFromPath(paths[order'[j]]), Owned(w, order'[j])[i].name);
          assert order'[j] == order[j];
        }
      }
    }
  }

  lemma {:induction false} FirstPassWritesComplete(w: World, order: seq<Ref>, paths: map<Ref, seq<Ref>>)
    requires forall j :: 0 <= j < |order| ==> order[j] in paths
    ensures forall j, i :: 0 <= j < |order| && 0 <= i < |Owned(w, order[j])| ==>
      (VarKey(NameFromPath(paths[order[j]]), Owned(w, order[j])[i].name), Owned(w, order[j])[i].variable)
        in FirstPassWrites(w, order, paths)
  {
    if |order| > 0 {
      var order' := order[..|order| - 1];
      var last := order[|order| - 1];
      FirstPassWritesComplete(w, order', paths);
      var ws := FirstPassWrites(w, order, paths);
      var vw := VarWrites(NameFromPath(paths[last]), Owned(w, last));
      assert ws == FirstPassWrites(w, order', paths) + vw;
      forall j, i | 0 <= j < |order| && 0 <= i < |Owned(w, order[j])|
        ensures (VarKey(NameFromPath(paths[order[j]]), Owned(w, order[j])[i].name), Owned(w, order[j])[i].variable) in ws
      {
        if j < |order'| {
          assert order'[j] == order[j];
        } else {
          assert vw[i] == (VarKey(NameFromPath(paths[order[j]]), Owned(w, order[j])[i].name), Owned(w, order[j])[i].variable);
        }
      }
    }
  }

  // ---------------------------------------------------------------------------
  // The dictionary's item list
  // ---------------------------------------------------------------------------

  predicate DistinctKeys(d: Writes) {
    forall i, j :: 0 <= i < j < |d| ==> d[i].0 != d[j].0
  }

  /** Where key `k` sits in an item list. */
  function IndexOfKey(d: Writes, k: string): (r: Option<nat>)
    ensures r.Some? ==> r.value < |d| && d[r.value].0 == k
    ensures r.None? ==> forall i :: 0 <= i < |d| ==> d[i].0 != k
  {
    if |d| == 0 then None
    else if d[|d| - 1].0 == k then Some(|d| - 1)
    else
      var r := IndexOfKey(d[..|d| - 1], k);
      assert forall i :: 0 <= i < |d| - 1 ==> d[..|d| - 1][i] == d[i];
      r
  }

  /** `d[k] = v` on a dictionary kept as its item list in insertion order:
      an existing key keeps its place, a new key goes last. */
  function Put(d: Writes, k: string, v: VarId): Writes {
    match IndexOfKey(d, k)
    case Some(i) => d[i := (k, v)]
    case None => d + [(k, v)]
  }

  /** `list(d.items())` after the writes `ws` into an empty dictionary. */
  function Items(ws: Writes): Writes {
    if |ws| == 0 then [] else Put(Items(ws[..|ws| - 1]), ws[|ws| - 1].0, ws[|ws| - 1].1)
  }

  /** In an item list without repeated keys, each key maps to its item's value. */
  lemma DistinctToMap(d: Writes, i: nat)
    requires DistinctKeys(d) && i < |d|
    ensures ToMap(d)[d[i].0] == d[i].1
  {
    ToMapLastWins(d, i);
  }

  /** The keys of the writes, in order. */
  function KeysOf(ws: Writes): (r: seq<string>)
    ensures |r| == |ws| && forall j :: 0 <= j < |ws| ==> r[j] == ws[j].0
  {
    seq(|ws|, j requires 0 <= j < |ws| => ws[j].0)
  }

  /** The keys of the dictionary are the keys of the writes. */
  lemma ToMapKeys(ws: Writes)
    ensures ToMap(ws).Keys == set x | x in KeysOf(ws)
  {
  }

  /** Overwriting the item of an existing key keeps the keys. */
  lemma PutExistingKeys(d: Writes, i: nat, v: VarId)
    requires DistinctKeys(d) && i < |d|
    ensures DistinctKeys(d[i := (d[i].0, v)])
    ensures ToMap(d[i := (d[i].0, v)]).Keys == ToMap(d).Keys
  {
    var d' := d[i := (d[i].0, v)];
    assert KeysOf(d') == KeysOf(d);
    ToMapKeys(d);
    ToMapKeys(d');
  }

  /** Overwriting the item of an existing key changes that key's value only. */
  lemma PutExisting(d: Writes, i: nat, v: VarId)
    requires DistinctKeys(d) && i < |d|
    ensures DistinctKeys(d[i := (d[i].0, v)])
    ensures ToMap(d[i := (d[i].0, v)]) == ToMap(d)[d[i].0 := v]
  {
    var d' := d[i := (d[i].0, v)];
    var m := ToMap(d)[d[i].0 := v];
    PutExistingKeys(d, i, v);
    assert ToMap(d').Keys == m.Keys;
    forall x | x in ToMap(d') ensures ToMap(d')[x] == m[x] {
      PutExistingValue(d, i, v, x);
    }
  }

  lemma PutExistingValue(d: Writes, i: nat, v: VarId, x: string)
    requires DistinctKeys(d) && i < |d|
    requires DistinctKeys(d[i := (d[i].0, v)]) && x in ToMap(d[i := (d[i].0, v)])
    ensures x in ToMap(d)[d[i].0 := v]
    ensures ToMap(d[i := (d[i].0, v)])[x] == ToMap(d)[d[i].0 := v][x]
  {
    var d' := d[i := (d[i].0, v)];
    var j :| 0 <= j < |d'| && d'[j].0 == x;
    DistinctToMap(d', j);
    if j != i {
      DistinctToMap(d, j);
    }
  }

  /** Writing into the item list is writing into the dictionary. */
  lemma PutSpec(d: Writes, k: string, v: VarId)
    requires DistinctKeys(d)
    ensures DistinctKeys(Put(d, k, v))
    ensures ToMap(Put(d, k, v)) == ToMap(d)[k := v]
  {
    match IndexOfKey(d, k)
    case Some(i) =>
      PutExisting(d, i, v);
    case None =>
      assert (d + [(k, v)])[..|d|] == d;
  }

  /** The item list has each key once and describes the same dictionary. */
  lemma {:induction false} ItemsSpec(ws: Writes)
    ensures DistinctKeys(Items(ws))
    ensures ToMap(Items(ws)) == ToMap(ws)
  {
    if |ws| > 0 {
      ItemsSpec(ws[..|ws| - 1]);
      PutSpec(Items(ws[..|ws| - 1]), ws[|ws| - 1].0, ws[|ws| - 1].1);
    }
  }

  // ---------------------------------------------------------------------------
  // Slot variables
  // ---------------------------------------------------------------------------

  /** An optimizer's slot name did not match the local-name pattern. */
  datatype SlotError = InvalidSlotName(optimizer: ObjId, slotName: string)

  const OptimizerSlotsName: string := "_OPTIMIZER_SLOT"

  /** Objects listed with slot names are the optimizers. */
  predicate IsOptimizer(w: World, r: Ref) {
    r.target in w.slotNames
  }

  function SlotNamesOf(w: World, r: Ref): seq<string> {
    if r.target in w.slotNames then w.slotNames[r.target] else []
  }

  /** `"/".join((_OPTIMIZER_SLOTS_NAME, optimizer path, slot name))`. */
  function SlotSuffix(path: seq<Ref>, slot: string): string {
    Strings.Join("/", [OptimizerSlotsName, NameFromPath(path), slot])
  }

  /** One slot name of one optimizer: every non-slot variable for which the
      optimizer has that slot gets the slot variable under
      `<variable key>/<suffix>`. */
  function SlotVarWrites(nonSlot: Writes, opt: ObjId, slot: string, suffix: string,
                         getSlot: (ObjId, VarId, string) -> Option<VarId>): (ws: Writes)
    ensures forall e :: e in ws ==>
      exists i :: 0 <= i < |nonSlot| && e.0 == nonSlot[i].0 + "/" + suffix && getSlot(opt, nonSlot[i].1, slot) == Some(e.1)
    ensures forall i :: 0 <= i < |nonSlot| && getSlot(opt, nonSlot[i].1, slot).Some? ==>
      (nonSlot[i].0 + "/" + suffix, getSlot(opt, nonSlot[i].1, slot).value) in ws
  {
    if |nonSlot| == 0 then []
    else
      var prefix := nonSlot[..|nonSlot| - 1];
      var rest := SlotVarWrites(prefix, opt, slot, suffix, getSlot);
      var e := nonSlot[|nonSlot| - 1];
      assert forall i :: 0 <= i < |prefix| ==> prefix[i] == nonSlot[i];
      match getSlot(opt, e.1, slot)
      case Some(sv) => rest + [(e.0 + "/" + suffix, sv)]
      case None => rest
  }

  /** The slot names of one optimizer in order; the first invalid one is a
      ValueError. */
  function OptimizerWrites(nonSlot: Writes, opt: ObjId, path: seq<Ref>, slots: seq<string>,
                           getSlot: (ObjId, VarId, string) -> Option<VarId>): (r: Result<Writes, SlotError>)
    ensures r.Err? <==> exists s :: s in slots && !ValidLocalName(s)
    ensures r.Err? ==> r.error.optimizer == opt && r.error.slotName in slots && !ValidLocalName(r.error.slotName)
    ensures r.Ok? ==> forall e :: e in r.value ==>
      exists s, i :: s in slots && 0 <= i < |nonSlot| && e.0 == nonSlot[i].0 + "/" + SlotSuffix(path, s)
  {
    if |slots| == 0 then Ok([])
    else
      var init := slots[..|slots| - 1];
      var slot := slots[|slots| - 1];
      assert forall s :: s in slots <==> s in init || s == slot;
      match OptimizerWrites(nonSlot, opt, path, init, getSlot)
      case Err(e) => Err(e)
      case Ok(ws) =>
        MatchLocalNameSpec(slot);
        if !MatchLocalName(slot) then Err(InvalidSlotName(opt, slot))
        else Ok(ws + SlotVarWrites(nonSlot, opt, slot, SlotSuffix(path, slot), getSlot))
  }

  /** The slot pass over the traversed references in order. */
  function SlotPassWrites(w: World, order: seq<Ref>, paths: map<Ref, seq<Ref>>, nonSlot: Writes,
                          getSlot: (ObjId, VarId, string) -> Option<VarId>): (r: Result<Writes, SlotError>)
    requires forall j :: 0 <= j < |order| ==> order[j] in paths
    ensures r.Err? <==> exists j, s :: (0 <= j < |order| && s in SlotNamesOf(w, order[j])
      && IsOptimizer(w, order[j]) && !ValidLocalName(s))
    ensures r.Err? ==> (
      && !ValidLocalName(r.error.slotName)
      && exists j :: 0 <= j < |order| && IsOptimizer(w, order[j]) && order[j].target == r.error.optimizer
           && r.error.slotName in SlotNamesOf(w, order[j]))
    ensures r.Ok? ==> forall e :: e in r.value ==>
      exists j, s, i :: 0 <= j < |order| && IsOptimizer(w, order[j]) && s in SlotNamesOf(w, order[j])
        && 0 <= i < |nonSlot| && e.0 == nonSlot[i].0 + "/" + SlotSuffix(paths[order[j]], s)
  {
    if |order| == 0 then Ok([])
    else
      var init := order[..|order| - 1];
      var last := order[|order| - 1];
      assert forall j :: 0 <= j < |init| ==> init[j] == order[j];
      match SlotPassWrites(w, init, paths, nonSlot, getSlot)
      case Err(e) => Err(e)
      case Ok(ws) =>
        if !IsOptimizer(w, last) then Ok(ws)
        else
          match OptimizerWrites(nonSlot, last.target, paths[last], SlotNamesOf(w, last), getSlot)
          case Err(e) => Err(e)
          case Ok(ws2) => Ok(ws + ws2)
  }

  /** `key` is the key of a slot variable: a variable key, then the slot
      suffix of a valid slot name of a traversed optimizer. */
  ghost predicate IsSlotKey(w: World, order: seq<Ref>, paths: map<Ref, seq<Ref>>, key: string)
    requires forall j :: 0 <= j < |order| ==> order[j] in paths
  {
    exists base, j, s :: IsVariableKey(w, order, paths, base) && 0 <= j < |order| && IsOptimizer(w, order[j])
      && s in SlotNamesOf(w, order[j]) && ValidLocalName(s) && key == base + "/" + SlotSuffix(paths[order[j]], s)
  }

  /** The dictionary assignments of the two passes, in order: every
      variable under its key, then the slot variables. */
  function NameWrites(w: World, order: seq<Ref>, paths: map<Ref, seq<Ref>>,
                      getSlot: (ObjId, VarId, string) -> Option<VarId>): (r: Result<Writes, SlotError>)
    requires forall j :: 0 <= j < |order| ==> order[j] in paths
    ensures r.Ok? ==> (|FirstPassWrites(w, order, paths)| <= |r.value|
      && r.value[..|FirstPassWrites(w, order, paths)|] == FirstPassWrites(w, order, paths))
  {
    var first := FirstPassWrites(w, order, paths);
    match SlotPassWrites(w, order, paths, Items(first), getSlot)
    case Err(e) => Err(e)
    case Ok(ws) => assert (first + ws)[..|first|] == first; Ok(first + ws)
  }

  /** The keys the two passes give for a traversal. */
  function NamedFrom(w: World, order: seq<Ref>, paths: map<Ref, seq<Ref>>,
                     getSlot: (ObjId, VarId, string) -> Option<VarId>): Result<map<string, VarId>, SlotError>
    requires forall j :: 0 <= j < |order| ==> order[j] in paths
  {
    match NameWrites(w, order, paths, getSlot)
    case Err(e) => Err(e)
    case Ok(ws) => Ok(ToMap(ws))
  }

  /** Every assignment after the first pass is to a slot key. */
  lemma NameWritesAfterFirstPass(w: World, order: seq<Ref>, paths: map<Ref, seq<Ref>>,
                                 getSlot: (ObjId, VarId, string) -> Option<VarId>)
    requires forall j :: 0 <= j < |order| ==> order[j] in paths
    requires NameWrites(w, order, paths, getSlot).Ok?
    ensures forall n :: |FirstPassWrites(w, order, paths)| <= n < |NameWrites(w, order, paths, getSlot).value| ==>
      IsSlotKey(w, order, paths, NameWrites(w, order, paths, getSlot).value[n].0)
  {
    var first := FirstPassWrites(w, order, paths);
    var nonSlot := Items(first);
    var slots := SlotPassWrites(w, order, paths, nonSlot, getSlot).value;
    var all := NameWrites(w, order, paths, getSlot).value;
    assert all == first + slots;
    forall n | |first| <= n < |all| ensures IsSlotKey(w, order, paths, all[n].0) {
      assert all[n] in slots;
      var j, s, i :| 0 <= j < |order| && IsOptimizer(w, order[j]) && s in SlotNamesOf(w, order[j])
        && 0 <= i < |nonSlot| && all[n].0 == nonSlot[i].0 + "/" + SlotSuffix(paths[order[j]], s);
      NonSlotKeyIsVariableKey(w, order, paths, i);
      SlotNameValid(w, order, paths, nonSlot, getSlot, j, s);
    }
  }

  /** Every owned variable of a traversed reference is keyed. */
  lemma NamedFromCovers(w: World, order: seq<Ref>, paths: map<Ref, seq<Ref>>,
                        getSlot: (ObjId, VarId, string) -> Option<VarId>)
    requires forall j :: 0 <= j < |order| ==> order[j] in paths
    requires NamedFrom(w, order, paths, getSlot).Ok?
    ensures forall j, i :: 0 <= j < |order| && 0 <= i < |Owned(w, order[j])| ==>
      VarKey(NameFromPath(paths[order[j]]), Owned(w, order[j])[i].name) in NamedFrom(w, order, paths, getSlot).value
  {
    var first := FirstPassWrites(w, order, paths);
    var rest := SlotPassWrites(w, order, paths, Items(first), getSlot).value;
    assert NamedFrom(w, order, paths, getSlot).value == ToMap(first + rest);
    FirstPassKeysKept(w, order, paths, rest);
  }

  /** Later writes never remove a first-pass key. */
  lemma FirstPassKeysKept(w: World, order: seq<Ref>, paths: map<Ref, seq<Ref>>, rest: Writes)
    requires forall j :: 0 <= j < |order| ==> order[j] in paths
    ensures forall j, i :: 0 <= j < |order| && 0 <= i < |Owned(w, order[j])| ==>
      VarKey(NameFromPath(paths[order[j]]), Owned(w, order[j])[i].name) in ToMap(FirstPassWrites(w, order, paths) + rest)
  {
    var first := FirstPassWrites(w, order, paths);
    FirstPassWritesSpec(w, order, paths);
    var all := first + rest;
    forall j, i | 0 <= j < |order| && 0 <= i < |Owned(w, order[j])|
      ensures VarKey(NameFromPath(paths[order[j]]), Owned(w, order[j])[i].name) in ToMap(all)
    {
      var e := (VarKey(NameFromPath(paths[order[j]]), Owned(w, order[j])[i].name), Owned(w, order[j])[i].variable);
      var n :| 0 <= n < |first| && first[n] == e;
      assert all[n] == e;
    }
  }

  /** Every key is a variable key or a slot key. */
  lemma NamedFromOrigins(w: World, order: seq<Ref>, paths: map<Ref, seq<Ref>>,
                         getSlot: (ObjId, VarId, string) -> Option<VarId>)
    requires forall j :: 0 <= j < |order| ==> order[j] in paths
    requires NamedFrom(w, order, paths, getSlot).Ok?
    ensures forall key :: key in NamedFrom(w, order, paths, getSlot).value ==>
      IsVariableKey(w, order, paths, key) || IsSlotKey(w, order, paths, key)
  {
    var first := FirstPassWrites(w, order, paths);
    var nonSlot := Items(first);
    var slots := SlotPassWrites(w, order, paths, nonSlot, getSlot).value;
    var all := first + slots;
    forall key | key in ToMap(all)
      ensures IsVariableKey(w, order, paths, key) || IsSlotKey(w, order, paths, key)
    {
      var n :| 0 <= n < |all| && all[n].0 == key;
      if n < |first| {
        FirstPassKeyIsVariableKey(w, order, paths, first[n]);
      } else {
        assert all[n] in slots;
        var j, s, i :| 0 <= j < |order| && IsOptimizer(w, order[j]) && s in SlotNamesOf(w, order[j])
          && 0 <= i < |nonSlot| && key == nonSlot[i].0 + "/" + SlotSuffix(paths[order[j]], s);
        NonSlotKeyIsVariableKey(w, order, paths, i);
        SlotNameValid(w, order, paths, nonSlot, getSlot, j, s);
      }
    }
  }

  lemma FirstPassKeyIsVariableKey(w: World, order: seq<Ref>, paths: map<Ref, seq<Ref>>, e: (string, VarId))
    requires forall j :: 0 <= j < |order| ==> order[j] in paths
    requires e in FirstPassWrites(w, order, paths)
    ensures IsVariableKey(w, order, paths, e.0)
  {
    FirstPassWritesSpec(w, order, paths);
  }

  lemma NonSlotKeyIsVariableKey(w: World, order: seq<Ref>, paths: map<Ref, seq<Ref>>, i: nat)
    requires forall j :: 0 <= j < |order| ==> order[j] in paths
    requires i < |Items(FirstPassWrites(w, order, paths))|
    ensures IsVariableKey(w, order, paths, Items(FirstPassWrites(w, order, paths))[i].0)
  {
    var first := FirstPassWrites(w, order, paths);
    ItemsSpec(first);
    var k := Items(first)[i].0;
    assert k in ToMap(Items(first));
    var m :| 0 <= m < |first| && first[m].0 == k;
    FirstPassKeyIsVariableKey(w, order, paths, first[m]);
  }

  /** A slot name the pass went past without failing is valid. */
  lemma SlotNameValid(w: World, order: seq<Ref>, paths: map<Ref, seq<Ref>>, nonSlot: Writes,
                      getSlot: (ObjId, VarId, string) -> Option<VarId>, j: nat, s: string)
    requires forall j :: 0 <= j < |order| ==> order[j] in paths
    requires SlotPassWrites(w, order, paths, nonSlot, getSlot).Ok?
    requires j < |order| && IsOptimizer(w, order[j]) && s in SlotNamesOf(w, order[j])
    ensures ValidLocalName(s)
  {
  }

  /** `_name_variables`: traverse from the root, key every owned variable by
      its owner's shortest path, then key the slot variables of every
      traversed optimizer after the variables they are for. */
  method NameVariables(w: World, root: ObjId, getSlot: (ObjId, VarId, string) -> Option<VarId>)
    returns (named: Result<map<string, VarId>, SlotError>, ghost order: seq<Ref>, ghost paths: map<Ref, seq<Ref>>)
    ensures IsTraversal(w, root, order, paths)
    ensures IsQueueOrder(w, order, paths)
    ensures named.Err? <==> exists j, s :: (0 <= j < |order| && s in SlotNamesOf(w, order[j])
      && IsOptimizer(w, order[j]) && !ValidLocalName(s))
    ensures named.Err? ==> !ValidLocalName(named.error.slotName)
    ensures named.Ok? ==> forall j, i :: 0 <= j < |order| && 0 <= i < |Owned(w, order[j])| ==>
      VarKey(NameFromPath(paths[order[j]]), Owned(w, order[j])[i].name) in named.value
    ensures named.Ok? ==> forall i :: 0 <= i < |Owned(w, RootRef(root))| ==>
      Owned(w, RootRef(root))[i].name in named.value
    ensures named.Ok? ==> forall key :: key in named.value ==>
      IsVariableKey(w, order, paths, key) || IsSlotKey(w, order, paths, key)
    ensures named.Ok? <==> NameWrites(w, order, paths, getSlot).Ok?
    ensures named.Ok? ==> forall key :: key in named.value ==>
      LastWrite(NameWrites(w, order, paths, getSlot).value, key, named.value[key])
    ensures named.Ok? ==> forall n :: 0 <= n < |NameWrites(w, order, paths, getSlot).value| ==>
      NameWrites(w, order, paths, getSlot).value[n].0 in named.value
  {
    var o, p := BreadthFirst(w, root);
    order, paths := o, p;
    named := NamedFrom(w, o, p, getSlot);
    if named.Ok? {
      NamedFromCovers(w, o, p, getSlot);
      NamedFromOrigins(w, o, p, getSlot);
      ToMapIsLastWrite(NameWrites(w, o, p, getSlot).value);
      assert NameFromPath(p[o[0]]) == "";
      assert forall i :: 0 <= i < |Owned(w, RootRef(root))| ==>
        VarKey(NameFromPath(p[o[0]]), Owned(w, o[0])[i].name) == Owned(w, RootRef(root))[i].name;
    }
  }
}
