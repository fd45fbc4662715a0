/** Planning how one cut is derived from another by opening and packing branches. */
module Transitions {
  import opened Wrappers
  import opened Ordering
  import opened Forests

  /** The steps of a transition, by location. */
  datatype CutSteps = CutSteps(retained: seq<NodePath>, toOpen: seq<NodePath>, toPack: seq<NodePath>)

  /** The steps of a transition, by node. */
  datatype CutTransition = CutTransition(
    retained: seq<CommitmentNode>, toOpen: seq<CommitmentNode>, toPack: seq<CommitmentNode>)

  // ---------- Which steps a transition needs ----------

  /** Some selected node is strictly below the path. */
  ghost predicate Above(cut: Cut, path: NodePath) {
    exists s :: s in cut && path < s
  }

  /** A branch at or below a source node and strictly above the target path. */
  ghost predicate OpenedFor(source: Cut, t: NodePath, branch: NodePath) {
    branch < t && Covers(source, branch)
  }

  /** A branch at or below the target path and strictly above a source node. */
  ghost predicate PackedFor(source: Cut, t: NodePath, branch: NodePath) {
    t <= branch && Above(source, branch)
  }

  /** A node that can be rebuilt from source nodes at or below it. */
  predicate Packable(node: CommitmentNode, path: NodePath, source: Cut)
    decreases node
  {
    path in source ||
    (node.Branch? && node.children != [] &&
     forall i | 0 <= i < |node.children| :: Packable(node.children[i], Child(path, i), source))
  }

  ghost predicate Derivable(f: CommitmentForest, source: Cut, t: NodePath)
    requires f.Lookup(t).Some?
  {
    Covers(source, t) || Packable(f.Lookup(t).value, t, source)
  }

  ghost predicate Derives(f: CommitmentForest, source: Cut, target: Cut)
    requires f.ValidCut(target)
  {
    forall t :: t in target ==> Derivable(f, source, t)
  }

  ghost predicate IsSteps(source: Cut, target: Cut, steps: CutSteps) {
    && InOrder(Lexicographic, steps.retained)
    && InOrder(ParentFirst, steps.toOpen)
    && InOrder(ChildFirst, steps.toPack)
    && (forall t :: t in steps.retained <==> t in source && t in target)
    && (forall q :: q in steps.toOpen <==> exists t :: t in target && OpenedFor(source, t, q))
    && (forall q :: q in steps.toPack <==> exists t :: t in target && PackedFor(source, t, q))
  }

  // ---------- Planning ----------

  lemma {:induction false} PackableReachesSource(f: CommitmentForest, path: NodePath, source: Cut)
    requires f.Lookup(path).Some? && Packable(f.Lookup(path).value, path, source)
    ensures path in source || Above(source, path)
    decreases f.Lookup(path).value
  {
    if path !in source {
      f.LookupChild(path, 0);
      PackableReachesSource(f, Child(path, 0), source);
      var s :| s in source && Child(path, 0) <= s;
    }
  }

  /** Recursively collect the branches to pack so that `path` becomes selected.
      On failure the set may already hold some of them. */
  method CollectPackPaths(f: CommitmentForest, path: NodePath, source: Cut, branches: set<NodePath>)
    returns (packable: bool, collected: set<NodePath>)
    requires f.Lookup(path).Some? && f.ValidCut(source)
    ensures packable <==> Packable(f.Lookup(path).value, path, source)
    ensures packable ==> forall q :: q in collected <==> q in branches || PackedFor(source, path, q)
    decreases f.Lookup(path).value
  {
    collected := branches;
    if path in source {
      return true, collected;
    }
    var node := f.Node(path);
    if !node.value.Branch? || node.value.children == [] {
      return false, collected;
    }
    var n := |node.value.children|;
    for i := 0 to n
      invariant forall j :: 0 <= j < i ==> Packable(node.value.children[j], Child(path, j), source)
      invariant forall q :: q in collected <==> q in branches || exists j :: 0 <= j < i && PackedFor(source, Child(path, j), q)
    {
      f.LookupChild(path, i);
      ghost var before := collected;
      packable, collected := CollectPackPaths(f, Child(path, i), source, collected);
      if !packable {
        return false, collected;
      }
    }
    PackedBelow(f, path, source, n);
    collected := collected + {path};
    return true, collected;
  }

  /** What is packed for a packable branch is the branch and what is packed for its children. */
  lemma PackedBelow(f: CommitmentForest, path: NodePath, source: Cut, n: nat)
    requires f.ValidCut(source) && f.IsBranch(path) && path !in source && n == |f.Lookup(path).value.children|
    requires Packable(f.Lookup(path).value, path, source)
    ensures forall q :: PackedFor(source, path, q) <==>
      q == path || exists j :: 0 <= j < n && PackedFor(source, Child(path, j), q)
  {
    PackableReachesSource(f, path, source);
    forall q | PackedFor(source, path, q) && q != path
      ensures exists j :: 0 <= j < n && PackedFor(source, Child(path, j), q)
    {
      var s :| s in source && q < s;
      f.LookupPrefix(q, s);
      f.LookupPrefix(path, q);
      assert PackedFor(source, Child(path, q[|path|]), q);
    }
    forall q, j | 0 <= j < n && PackedFor(source, Child(path, j), q) ensures PackedFor(source, path, q) {
      assert path <= Child(path, j);
    }
  }

  /** The first source node at or above a path. */
  method FindAncestor(source: Cut, path: NodePath) returns (ancestor: Option<NodePath>)
    ensures ancestor.Some? <==> Covers(source, path)
    ensures ancestor.Some? ==> ancestor.value in source && ancestor.value <= path
  {
    var paths := Ordered(Lexicographic, source);
    for k := 0 to |paths|
      invariant forall i :: 0 <= i < k ==> !(paths[i] <= path)
    {
      assert paths[k] in source;
      if paths[k] <= path {
        return Some(paths[k]);
      }
    }
    return None;
  }

  /** In an antichain a covered path has exactly one node above it, so what is
      opened for it is one chain, and nothing is packed for it. */
  lemma CoveredPath(f: CommitmentForest, source: Cut, s: NodePath, t: NodePath)
    requires f.ValidCut(source) && s in source && s <= t
    ensures forall q :: OpenedFor(source, t, q) <==> s <= q < t
    ensures forall q :: !PackedFor(source, t, q)
  {
    forall q | OpenedFor(source, t, q) ensures s <= q {
      var s' :| s' in source && s' <= q;
      assert s <= s' || s' <= s;
    }
    forall s' | s' in source && t <= s' ensures s' == s {
      assert s <= s';
    }
  }

  ghost predicate CollectsOpens(source: Cut, ts: seq<NodePath>, qs: set<NodePath>) {
    forall q :: q in qs <==> exists t :: t in ts && OpenedFor(source, t, q)
  }

  ghost predicate CollectsPacks(source: Cut, ts: seq<NodePath>, qs: set<NodePath>) {
    forall q :: q in qs <==> exists t :: t in ts && PackedFor(source, t, q)
  }

  ghost predicate CollectsRetained(source: Cut, ts: seq<NodePath>, qs: seq<NodePath>) {
    InOrder(Lexicographic, qs) && forall q :: q in qs <==> q in source && q in ts
  }

  /** The target paths `ts` are derivable, and their steps are what has been collected. */
  ghost predicate Planned(f: CommitmentForest, source: Cut, ts: seq<NodePath>,
                          retained: seq<NodePath>, opens: set<NodePath>, packs: set<NodePath>) {
    && (forall t :: t in ts ==> f.Lookup(t).Some? && Derivable(f, source, t))
    && CollectsRetained(source, ts, retained)
    && CollectsOpens(source, ts, opens)
    && CollectsPacks(source, ts, packs)
  }

  /** Handling the next target path adds its own steps to what is collected. */
  lemma PlannedOneMore(f: CommitmentForest, source: Cut, paths: seq<NodePath>, k: nat, retained: seq<NodePath>,
                       opens: set<NodePath>, opens': set<NodePath>, packs: set<NodePath>, packs': set<NodePath>)
    requires InOrder(Lexicographic, paths) && k < |paths|
    requires Planned(f, source, paths[..k], retained, opens, packs)
    requires f.Lookup(paths[k]).Some? && Derivable(f, source, paths[k])
    requires forall q :: q in opens' <==> q in opens || OpenedFor(source, paths[k], q)
    requires forall q :: q in packs' <==> q in packs || PackedFor(source, paths[k], q)
    ensures Planned(f, source, paths[..k + 1],
                    if paths[k] in source then retained + [paths[k]] else retained, opens', packs')
  {
    assert paths[..k + 1] == paths[..k] + [paths[k]];
    forall i | 0 <= i < |retained| ensures Before(Lexicographic, retained[i], paths[k]) {
      assert retained[i] in paths[..k];
      var j :| 0 <= j < k && paths[j] == retained[i];
      PositionFollowsOrder(Lexicographic, paths, j, k);
    }
  }

  method OpenDownTo(f: CommitmentForest, ancestor: NodePath, t: NodePath, branches: set<NodePath>)
    returns (opens: set<NodePath>)
    requires ancestor <= t && f.Lookup(t).Some?
    ensures forall q :: q in opens <==> q in branches || ancestor <= q < t
  {
    opens := branches;
    for depth := |ancestor| to |t|
      invariant forall q :: q in opens <==> q in branches || (ancestor <= q < t && |q| < depth)
    {
      var branch: NodePath := t[..depth];
      var node := f.Node(branch);
      f.LookupPrefix(branch, t);
      if !(node.Some? && node.value.Branch?) {
        assert false;
      }
      assert forall q :: q < t && |q| == depth ==> q == branch;
      opens := opens + {branch};
    }
  }

  /** Plan one target path that is not itself selected in the source. */
  method PlanPath(f: CommitmentForest, source: Cut, t: NodePath, opens: set<NodePath>, packs: set<NodePath>)
    returns (derivable: bool, opens': set<NodePath>, packs': set<NodePath>)
    requires f.ValidCut(source) && f.Lookup(t).Some?
    ensures derivable <==> Derivable(f, source, t)
    ensures derivable ==> forall q :: q in opens' <==> q in opens || OpenedFor(source, t, q)
    ensures derivable ==> forall q :: q in packs' <==> q in packs || PackedFor(source, t, q)
  {
    opens', packs' := opens, packs;
    var ancestor := FindAncestor(source, t);
    if ancestor.Some? {
      CoveredPath(f, source, ancestor.value, t);
      opens' := OpenDownTo(f, ancestor.value, t, opens);
      return true, opens', packs';
    }
    assert forall q :: OpenedFor(source, t, q) ==> Covers(source, t);
    derivable, packs' := CollectPackPaths(f, t, source, packs);
  }

  method PlanSteps(f: CommitmentForest, source: Cut, target: Cut) returns (steps: Option<CutSteps>)
    requires f.ValidCut(source) && f.ValidCut(target)
    ensures steps.Some? <==> Derives(f, source, target)
    ensures steps.Some? ==> IsSteps(source, target, steps.value)
  {
    var paths := Ordered(Lexicographic, target);
    var retained: seq<NodePath> := [];
    var toOpen: set<NodePath> := {};
    var toPack: set<NodePath> := {};
    for k := 0 to |paths|
      invariant Planned(f, source, paths[..k], retained, toOpen, toPack)
    {
      var t := paths[k];
      assert t in target;
      if t in source {
        CoveredPath(f, source, t, t);
        PlannedOneMore(f, source, paths, k, retained, toOpen, toOpen, toPack, toPack);
        retained := retained + [t];
      } else {
        var derivable, opens, packs := PlanPath(f, source, t, toOpen, toPack);
        if !derivable {
          return None;
        }
        PlannedOneMore(f, source, paths, k, retained, toOpen, opens, toPack, packs);
        toOpen, toPack := opens, packs;
      }
    }
    assert paths[..|paths|] == paths;
    var opens := Ordered(ParentFirst, toOpen);
    var packs := Ordered(ChildFirst, toPack);
    PlannedSteps(f, source, target, paths, retained, toOpen, toPack, opens, packs);
    return Some(CutSteps(retained, opens, packs));
  }

  lemma PlannedSteps(f: CommitmentForest, source: Cut, target: Cut, paths: seq<NodePath>, retained: seq<NodePath>,
                     toOpen: set<NodePath>, toPack: set<NodePath>, opens: seq<NodePath>, packs: seq<NodePath>)
    requires f.ValidCut(target) && forall t :: t in paths <==> t in target
    requires Planned(f, source, paths, retained, toOpen, toPack)
    requires InOrder(ParentFirst, opens) && forall q :: q in opens <==> q in toOpen
    requires InOrder(ChildFirst, packs) && forall q :: q in packs <==> q in toPack
    ensures Derives(f, source, target)
    ensures IsSteps(source, target, CutSteps(retained, opens, packs))
  {
  }

  method NodesAt(f: CommitmentForest, paths: seq<NodePath>) returns (nodes: seq<CommitmentNode>)
    requires forall p :: p in paths ==> f.Lookup(p).Some?
    ensures |nodes| == |paths|
    ensures forall i :: 0 <= i < |paths| ==> f.Lookup(paths[i]) == Some(nodes[i])
  {
    nodes := [];
    for k := 0 to |paths|
      invariant |nodes| == k
      invariant forall i :: 0 <= i < k ==> f.Lookup(paths[i]) == Some(nodes[i])
    {
      var node := f.Node(paths[k]);
      nodes := nodes + [node.value];
    }
  }

  ghost predicate AreNodesAt(f: CommitmentForest, paths: seq<NodePath>, nodes: seq<CommitmentNode>) {
    && |nodes| == |paths|
    && forall i :: 0 <= i < |paths| ==> f.Lookup(paths[i]) == Some(nodes[i])
  }

  /** Every step of a transition is a node of the forest; opened and packed ones are branches. */
  lemma StepsExist(f: CommitmentForest, source: Cut, target: Cut, steps: CutSteps)
    requires f.ValidCut(source) && f.ValidCut(target) && IsSteps(source, target, steps)
    ensures forall p :: p in steps.retained ==> f.Lookup(p).Some?
    ensures forall p :: p in steps.toOpen ==> f.IsBranch(p)
    ensures forall p :: p in steps.toPack ==> f.IsBranch(p)
  {
    forall p | p in steps.toOpen ensures f.IsBranch(p) {
      var t :| t in target && OpenedFor(source, t, p);
      f.LookupPrefix(p, t);
    }
    forall p | p in steps.toPack ensures f.IsBranch(p) {
      var t :| t in target && PackedFor(source, t, p);
      var s :| s in source && p < s;
      f.LookupPrefix(p, s);
    }
  }

  /** Plans the steps and maps them to nodes; the lookups never fail. */
  method Transition(f: CommitmentForest, source: Cut, target: Cut)
    returns (transition: Option<CutTransition>, ghost steps: CutSteps)
    requires f.ValidCut(source) && f.ValidCut(target)
    ensures transition.Some? <==> Derives(f, source, target)
    ensures transition.Some? ==>
      && IsSteps(source, target, steps)
      && AreNodesAt(f, steps.retained, transition.value.retained)
      && AreNodesAt(f, steps.toOpen, transition.value.toOpen)
      && AreNodesAt(f, steps.toPack, transition.value.toPack)
  {
    var planned := PlanSteps(f, source, target);
    if planned.None? {
      return None, CutSteps([], [], []);
    }
    steps := planned.value;
    StepsExist(f, source, target, steps);
    var retained := NodesAt(f, planned.value.retained);
    var toOpen := NodesAt(f, planned.value.toOpen);
    var toPack := NodesAt(f, planned.value.toPack);
    return Some(CutTransition(retained, toOpen, toPack)), steps;
  }
}
