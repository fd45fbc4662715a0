/** Commitment forests, the cuts through them, and the two moves between cuts. */
module Forests {
  import opened Wrappers
  import opened Ordering

  datatype CommitmentNode = Leaf(actor: Name) | Branch(children: seq<CommitmentNode>)

  /** The structural location of a node: a root index, then child indices. */
  type NodePath = p: seq<nat> | p != [] witness [0]

  type Cut = set<NodePath>

  function Root(i: nat): NodePath { [i] }

  function Child(p: NodePath, i: nat): NodePath { p + [i] }

  function Children(p: NodePath, n: nat): Cut { set i: nat | i < n :: Child(p, i) }

  /** Every path but a root has a parent. */
  function Parent(p: NodePath): NodePath
    requires 1 < |p|
  {
    p[..|p| - 1]
  }

  /** The paths of a set in the given order. */
  function Ordered(o: Order, paths: set<NodePath>): (r: seq<NodePath>)
    ensures forall p :: p in r <==> p in paths
    ensures InOrder(o, r)
  {
    var r := Sorted(o, paths);
    assert forall i :: 0 <= i < |r| ==> r[i] in paths;
    r
  }

  /** Some selected node is at or above the path. */
  ghost predicate Covers(cut: Cut, path: NodePath) {
    exists s :: s in cut && s <= path
  }

  ghost predicate NoneExtendsBefore(paths: seq<NodePath>, n: nat)
    requires n <= |paths|
  {
    forall i, j :: 0 <= i < j < n && j == i + 1 ==> !(paths[i] <= paths[j])
  }

  /** In lexicographic order, if no path extends the one just before it, none extends any other. */
  lemma NeighboursSuffice(paths: seq<NodePath>, p: NodePath, q: NodePath)
    requires InOrder(Lexicographic, paths) && NoneExtendsBefore(paths, |paths|)
    requires p in paths && q in paths && p <= q
    ensures p == q
  {
    if p != q {
      PrefixIsLess(p, q);
      var i :| 0 <= i < |paths| && paths[i] == p;
      var j :| 0 <= j < |paths| && paths[j] == q;
      PositionFollowsOrder(Lexicographic, paths, i, j);
      if i + 1 < j {
        assert Before(Lexicographic, paths[i], paths[i + 1]) && Before(Lexicographic, paths[i + 1], paths[j]);
        ExtensionsAreContiguous(p, paths[i + 1], q);
      }
      assert false;
    }
  }

  datatype CommitmentForest = CommitmentForest(roots: seq<CommitmentNode>) {

    /** The node at a path, by descending from its parent's node. */
    function Lookup(path: NodePath): Option<CommitmentNode>
      decreases |path|
    {
      var last := path[|path| - 1];
      if |path| == 1 then
        if last < |roots| then Some(roots[last]) else None
      else
        match Lookup(Parent(path))
        case Some(Branch(children)) => if last < |children| then Some(children[last]) else None
        case _ => None
    }

    /** Finds the node by one loop from the root down. */
    method Node(path: NodePath) returns (found: Option<CommitmentNode>)
      ensures found == Lookup(path)
    {
      var root := path[0];
      if |roots| <= root {
        if Lookup(path).Some? { LookupPrefix(path[..1], path); }
        return None;
      }
      var node := roots[root];
      for depth := 1 to |path|
        invariant Lookup(path[..depth]) == Some(node)
      {
        assert Parent(path[..depth + 1]) == path[..depth];
        if !node.Branch? || |node.children| <= path[depth] {
          if Lookup(path).Some? { LookupPrefix(path[..depth + 1], path); }
          return None;
        }
        node := node.children[path[depth]];
      }
      assert path[..|path|] == path;
      return Some(node);
    }

    predicate IsBranch(path: NodePath) {
      Lookup(path).Some? && Lookup(path).value.Branch?
    }

    /** A node with nothing below it: a leaf, or a branch without children. */
    predicate IsTerminal(path: NodePath) {
      Lookup(path).Some? && (Lookup(path).value.Leaf? || Lookup(path).value.children == [])
    }

    lemma LookupChild(path: NodePath, i: nat)
      ensures Lookup(Child(path, i)) ==
        if IsBranch(path) && i < |Lookup(path).value.children| then Some(Lookup(path).value.children[i]) else None
    {
      assert Parent(Child(path, i)) == path;
    }

    /** Every proper prefix of an existing path is a branch whose child the path continues in. */
    lemma {:induction false} LookupPrefix(prefix: NodePath, path: NodePath)
      requires prefix <= path && Lookup(path).Some?
      ensures Lookup(prefix).Some?
      ensures prefix != path ==>
        IsBranch(prefix) && path[|prefix|] < |Lookup(prefix).value.children| && Child(prefix, path[|prefix|]) <= path
      decreases |path|
    {
      if prefix != path {
        assert prefix <= Parent(path);
        LookupPrefix(prefix, Parent(path));
      }
    }

    /** No selected path is missing, and none is above another. */
    predicate ValidCut(cut: Cut) {
      && (forall p :: p in cut ==> Lookup(p).Some?)
      && (forall p, q :: p in cut && q in cut && p <= q ==> p == q)
    }

    /** Decides validity by walking the paths in lexicographic order and comparing neighbours only. */
    method IsValidCut(cut: Cut) returns (valid: bool)
      ensures valid <==> ValidCut(cut)
    {
      var paths := Ordered(Lexicographic, cut);
      for k := 0 to |paths|
        invariant forall i :: 0 <= i < k ==> Lookup(paths[i]).Some?
        invariant NoneExtendsBefore(paths, k)
      {
        var node := Node(paths[k]);
        assert paths[k] in cut;
        if node.None? {
          return false;
        }
        if 0 < k && paths[k - 1] <= paths[k] {
          assert paths[k - 1] in cut;
          PositionFollowsOrder(Lexicographic, paths, k - 1, k);
          return false;
        }
      }
      forall p, q | p in cut && q in cut && p <= q ensures p == q {
        NeighboursSuffice(paths, p, q);
      }
      return true;
    }

    /** The fully packed cut. */
    function RootCut(): Cut { set i: nat | i < |roots| :: Root(i) }

    /** Replace one selected branch with its immediate children. */
    function Open(cut: Cut, branch: NodePath): Option<Cut> {
      if !ValidCut(cut) || branch !in cut then None
      else
        match Lookup(branch)
        case Some(Branch(children)) =>
          if children == [] then None else Some(cut - {branch} + Children(branch, |children|))
        case _ => None
    }

    /** Replace all selected immediate children of one branch with the branch. */
    function Pack(cut: Cut, branch: NodePath): Option<Cut> {
      if !ValidCut(cut) then None
      else
        match Lookup(branch)
        case Some(Branch(children)) =>
          if children == [] || !(Children(branch, |children|) <= cut) then None
          else Some(cut - Children(branch, |children|) + {branch})
        case _ => None
    }

    /** Two cuts lie above exactly the same terminals, and so above the same leaves. */
    ghost predicate SameCoverage(a: Cut, b: Cut) {
      forall leaf :: IsTerminal(leaf) ==> (Covers(a, leaf) <==> Covers(b, leaf))
    }

    lemma RootCutCoversAll()
      ensures ValidCut(RootCut())
      ensures forall p :: Lookup(p).Some? ==> Covers(RootCut(), p)
    {
      forall p: NodePath | Lookup(p).Some? ensures Covers(RootCut(), p) {
        LookupPrefix(p[..1], p);
        assert p[..1] == Root(p[0]) && Root(p[0]) in RootCut();
      }
    }

    lemma OpenPreserves(cut: Cut, branch: NodePath)
      requires Open(cut, branch).Some?
      ensures ValidCut(Open(cut, branch).value)
      ensures SameCoverage(cut, Open(cut, branch).value)
    {
      var after := Open(cut, branch).value;
      var n := |Lookup(branch).value.children|;
      forall p | p in after ensures Lookup(p).Some? {
        if p !in cut {
          var i :| 0 <= i < n && p == Child(branch, i);
          LookupChild(branch, i);
        }
      }
      forall p, q | p in after && q in after && p <= q ensures p == q {
        if p !in cut {
          assert branch <= p <= q;
          assert q in Children(branch, n);
        }
      }
      forall leaf | IsTerminal(leaf) ensures Covers(cut, leaf) <==> Covers(after, leaf) {
        if Covers(cut, leaf) {
          var s :| s in cut && s <= leaf;
          if s == branch {
            LookupPrefix(branch, leaf);
            assert Child(branch, leaf[|branch|]) in after;
          } else {
            assert s in after;
          }
        }
        if Covers(after, leaf) {
          var s :| s in after && s <= leaf;
          if s !in cut {
            assert branch <= s <= leaf;
          }
        }
      }
    }

    /** Packing undoes opening. */
    lemma PackUndoesOpen(cut: Cut, branch: NodePath)
      requires Open(cut, branch).Some?
      ensures Pack(Open(cut, branch).value, branch) == Some(cut)
    {
      OpenPreserves(cut, branch);
      var children := Children(branch, |Lookup(branch).value.children|);
      assert forall c :: c in children ==> branch <= c && branch != c;
      assert cut - {branch} + children - children + {branch} == cut;
    }

    lemma PackPreserves(cut: Cut, branch: NodePath)
      requires Pack(cut, branch).Some?
      ensures ValidCut(Pack(cut, branch).value)
      ensures SameCoverage(cut, Pack(cut, branch).value)
    {
      var packed := Pack(cut, branch).value;
      var n := |Lookup(branch).value.children|;
      assert Child(branch, 0) in Children(branch, n);
      forall q | q in cut && branch <= q ensures q in Children(branch, n) {
        LookupPrefix(branch, q);
        assert Child(branch, q[|branch|]) in cut;
      }
      assert forall p :: p in cut && p <= branch ==> p <= Child(branch, 0);
      forall leaf | IsTerminal(leaf) ensures Covers(cut, leaf) <==> Covers(packed, leaf) {
        if Covers(cut, leaf) {
          var s :| s in cut && s <= leaf;
          if s !in packed {
            assert branch <= s <= leaf && branch in packed;
          }
        }
        if Covers(packed, leaf) {
          var s :| s in packed && s <= leaf;
          if s !in cut {
            LookupPrefix(branch, leaf);
            assert Child(branch, leaf[|branch|]) in cut;
          }
        }
      }
    }

    /** Opening undoes packing. */
    lemma OpenUndoesPack(cut: Cut, branch: NodePath)
      requires Pack(cut, branch).Some?
      ensures Open(Pack(cut, branch).value, branch) == Some(cut)
    {
      PackPreserves(cut, branch);
      var n := |Lookup(branch).value.children|;
      var children := Children(branch, n);
      assert Child(branch, 0) in children;
      assert branch !in cut;
      assert cut - children + {branch} - {branch} + children == cut;
    }
  }
}
