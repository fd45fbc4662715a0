/** What a transition means: its steps can be carried out in order, it exists
    exactly when some run of opens and packs reaches the target, and it exists
    exactly when everything below the target is below the source. */
module Replay {
  import opened Wrappers
  import opened Ordering
  import opened Forests
  import opened Transitions

  // ---------- Coverage decides derivability ----------

  ghost predicate CoversBelow(f: CommitmentForest, source: Cut, t: NodePath) {
    forall leaf :: f.IsTerminal(leaf) && t <= leaf ==> Covers(source, leaf)
  }

  lemma {:induction false} PackableCoversBelow(f: CommitmentForest, source: Cut, t: NodePath)
    requires f.Lookup(t).Some? && Packable(f.Lookup(t).value, t, source)
    ensures CoversBelow(f, source, t)
    decreases f.Lookup(t).value
  {
    forall leaf | f.IsTerminal(leaf) && t <= leaf ensures Covers(source, leaf) {
      if t !in source {
        f.LookupPrefix(t, leaf);
        var child := Child(t, leaf[|t|]);
        f.LookupChild(t, leaf[|t|]);
        PackableCoversBelow(f, source, child);
      }
    }
  }

  lemma {:induction false} CoversBelowPackable(f: CommitmentForest, source: Cut, t: NodePath)
    requires f.Lookup(t).Some? && CoversBelow(f, source, t)
    requires forall s :: s in source && s <= t ==> s == t
    ensures Packable(f.Lookup(t).value, t, source)
    decreases f.Lookup(t).value
  {
    assert f.IsTerminal(t) ==> Covers(source, t);
    if t !in source {
      var children := f.Lookup(t).value.children;
      forall i | 0 <= i < |children| ensures Packable(children[i], Child(t, i), source) {
        f.LookupChild(t, i);
        assert forall s :: s in source && s <= Child(t, i) ==> s <= t || s == Child(t, i);
        forall leaf | f.IsTerminal(leaf) && Child(t, i) <= leaf ensures Covers(source, leaf) {
          assert t <= leaf;
        }
        CoversBelowPackable(f, source, Child(t, i));
      }
    }
  }

  lemma DerivableIffCovered(f: CommitmentForest, source: Cut, t: NodePath)
    requires f.Lookup(t).Some?
    ensures Derivable(f, source, t) <==> CoversBelow(f, source, t)
  {
    if Covers(source, t) {
      var s :| s in source && s <= t;
      forall leaf | f.IsTerminal(leaf) && t <= leaf ensures Covers(source, leaf) {
        assert s <= leaf;
      }
    } else if CoversBelow(f, source, t) {
      CoversBelowPackable(f, source, t);
    } else if Packable(f.Lookup(t).value, t, source) {
      PackableCoversBelow(f, source, t);
    }
  }

  /** Every terminal below `b` is below `a`. */
  ghost predicate CoversAllOf(f: CommitmentForest, a: Cut, b: Cut) {
    forall leaf :: f.IsTerminal(leaf) && Covers(b, leaf) ==> Covers(a, leaf)
  }

  /** A transition exists exactly when every terminal below the target lies below the source. */
  lemma DerivesIffCovered(f: CommitmentForest, source: Cut, target: Cut)
    requires f.ValidCut(target)
    ensures Derives(f, source, target) <==> CoversAllOf(f, source, target)
  {
    forall t | t in target ensures Derivable(f, source, t) <==> CoversBelow(f, source, t) {
      DerivableIffCovered(f, source, t);
    }
    if CoversAllOf(f, source, target) {
      forall t | t in target ensures CoversBelow(f, source, t) {
        assert forall leaf: NodePath :: t <= leaf ==> Covers(target, leaf);
      }
    }
  }

  /** In a forest without empty branches the terminals are the leaves. */
  ghost predicate NoEmptyBranches(f: CommitmentForest) {
    forall p :: f.IsBranch(p) ==> f.Lookup(p).value.children != []
  }

  ghost predicate IsLeaf(f: CommitmentForest, p: NodePath) {
    f.Lookup(p).Some? && f.Lookup(p).value.Leaf?
  }

  lemma DerivesIffLeavesCovered(f: CommitmentForest, source: Cut, target: Cut)
    requires f.ValidCut(target) && NoEmptyBranches(f)
    ensures Derives(f, source, target) <==>
      forall leaf :: IsLeaf(f, leaf) && Covers(target, leaf) ==> Covers(source, leaf)
  {
    DerivesIffCovered(f, source, target);
    assert forall p :: f.IsTerminal(p) ==> IsLeaf(f, p);
    assert forall p :: IsLeaf(f, p) ==> f.IsTerminal(p);
  }

  /** Derivability is reflexive and transitive. */
  lemma DerivesIsPreorder(f: CommitmentForest, a: Cut, b: Cut, c: Cut)
    requires f.ValidCut(a) && f.ValidCut(b) && f.ValidCut(c)
    ensures Derives(f, a, a)
    ensures Derives(f, a, b) && Derives(f, b, c) ==> Derives(f, a, c)
  {
    DerivesIffCovered(f, a, a);
    DerivesIffCovered(f, a, b);
    DerivesIffCovered(f, b, c);
    DerivesIffCovered(f, a, c);
  }

  /** A cut that covers every terminal derives every cut. */
  lemma FullCutDerivesAll(f: CommitmentForest, full: Cut, target: Cut)
    requires f.ValidCut(target) && forall leaf :: f.IsTerminal(leaf) ==> Covers(full, leaf)
    ensures Derives(f, full, target)
  {
    DerivesIffCovered(f, full, target);
  }

  // ---------- Carrying out the steps ----------

  function OpenAll(f: CommitmentForest, cut: Cut, branches: seq<NodePath>): Option<Cut>
    decreases |branches|
  {
    if branches == [] then Some(cut)
    else
      match f.Open(cut, branches[0])
      case None => None
      case Some(next) => OpenAll(f, next, branches[1..])
  }

  function PackAll(f: CommitmentForest, cut: Cut, branches: seq<NodePath>): Option<Cut>
    decreases |branches|
  {
    if branches == [] then Some(cut)
    else
      match f.Pack(cut, branches[0])
      case None => None
      case Some(next) => PackAll(f, next, branches[1..])
  }

  /** A path that is selected already, or whose parent is still to be opened. */
  predicate Pending(cut: Cut, rest: seq<NodePath>, p: NodePath) {
    p in cut || (1 < |p| && Parent(p) in rest)
  }

  /** What holds while the branches `rest` are still to be opened. */
  ghost predicate OpeningTowards(f: CommitmentForest, source: Cut, target: Cut, cut: Cut, rest: seq<NodePath>) {
    && f.ValidCut(cut)
    && InOrder(ParentFirst, rest)
    && (forall o :: o in rest ==> Above(target, o) && Pending(cut, rest, o))
    && (forall t :: t in target && Covers(source, t) ==> Pending(cut, rest, t))
    && (forall s :: s in source && !Above(target, s) ==> s in cut)
  }

  lemma {:induction false} OpenOne(f: CommitmentForest, source: Cut, target: Cut, cut: Cut, rest: seq<NodePath>)
    requires f.ValidCut(target) && rest != [] && OpeningTowards(f, source, target, cut, rest)
    ensures f.Open(cut, rest[0]).Some?
    ensures OpeningTowards(f, source, target, f.Open(cut, rest[0]).value, rest[1..])
  {
    var o := rest[0];
    assert o in rest;
    var t :| t in target && o < t;
    f.LookupPrefix(o, t);
    forall i | 0 <= i < |rest| ensures |o| <= |rest[i]| {
      assert i == 0 || Before(ParentFirst, rest[0], rest[i]);
    }
    assert o in cut;
    f.OpenPreserves(cut, o);
    var next := f.Open(cut, o).value;
    forall p | Pending(cut, rest, p) && f.Lookup(p).Some? && p != o ensures Pending(next, rest[1..], p) {
      if p !in cut && Parent(p) == o {
        assert p == Child(o, p[|p| - 1]);
      }
    }
    forall p | p in rest[1..] ensures Pending(next, rest[1..], p) {
      var i :| 1 <= i < |rest| && rest[i] == p;
      PositionFollowsOrder(ParentFirst, rest, 0, i);
      assert p in rest;
      var u :| u in target && p < u;
      f.LookupPrefix(p, u);
    }
    forall u | u in target && Covers(source, u) ensures Pending(next, rest[1..], u) {
      assert u != o;
    }
  }

  lemma {:induction false} OpenAllSucceeds(f: CommitmentForest, source: Cut, target: Cut, cut: Cut, rest: seq<NodePath>)
    requires f.ValidCut(target) && OpeningTowards(f, source, target, cut, rest)
    ensures OpenAll(f, cut, rest).Some?
    ensures OpeningTowards(f, source, target, OpenAll(f, cut, rest).value, [])
    ensures f.SameCoverage(cut, OpenAll(f, cut, rest).value)
    decreases |rest|
  {
    if rest != [] {
      OpenOne(f, source, target, cut, rest);
      f.OpenPreserves(cut, rest[0]);
      OpenAllSucceeds(f, source, target, f.Open(cut, rest[0]).value, rest[1..]);
    }
  }

  /** What holds while the branches `rest` are still to be packed. */
  ghost predicate PackingTowards(f: CommitmentForest, target: Cut, cut: Cut, rest: seq<NodePath>) {
    && f.ValidCut(cut)
    && InOrder(ChildFirst, rest)
    && (forall p :: p in rest ==> f.IsBranch(p) && f.Lookup(p).value.children != [] && Covers(target, p))
    && (forall p, i :: p in rest && 0 <= i < |f.Lookup(p).value.children| ==> Child(p, i) in cut || Child(p, i) in rest)
    && (forall t :: t in target ==> t in cut || t in rest)
  }

  lemma {:induction false} PackOne(f: CommitmentForest, target: Cut, cut: Cut, rest: seq<NodePath>)
    requires f.ValidCut(target) && rest != [] && PackingTowards(f, target, cut, rest)
    ensures f.Pack(cut, rest[0]).Some?
    ensures PackingTowards(f, target, f.Pack(cut, rest[0]).value, rest[1..])
  {
    var p := rest[0];
    var n := |f.Lookup(p).value.children|;
    forall i | 0 <= i < |rest| ensures |rest[i]| <= |p| {
      assert i == 0 || Before(ChildFirst, rest[0], rest[i]);
    }
    assert p in rest;
    f.PackPreserves(cut, p);
    var next := f.Pack(cut, p).value;
    forall q, i | q in rest[1..] && 0 <= i < |f.Lookup(q).value.children|
      ensures Child(q, i) in next || Child(q, i) in rest[1..]
    {
      var j :| 1 <= j < |rest| && rest[j] == q;
      PositionFollowsOrder(ChildFirst, rest, 0, j);
      assert q in rest && Parent(Child(q, i)) == q;
      assert forall k: nat :: Parent(Child(p, k)) == p;
    }
    forall t | t in target ensures t in next || t in rest[1..] {
      var u :| u in target && u <= p;
      assert forall k: nat :: u <= Child(p, k) && u != Child(p, k);
    }
  }

  lemma {:induction false} PackAllSucceeds(f: CommitmentForest, target: Cut, cut: Cut, rest: seq<NodePath>)
    requires f.ValidCut(target) && PackingTowards(f, target, cut, rest)
    ensures PackAll(f, cut, rest).Some?
    ensures f.ValidCut(PackAll(f, cut, rest).value) && target <= PackAll(f, cut, rest).value
    ensures f.SameCoverage(cut, PackAll(f, cut, rest).value)
    decreases |rest|
  {
    if rest != [] {
      PackOne(f, target, cut, rest);
      f.PackPreserves(cut, rest[0]);
      PackAllSucceeds(f, target, f.Pack(cut, rest[0]).value, rest[1..]);
    }
  }

  /** A node at or below a packable one, with no source node strictly above it, is packable. */
  lemma {:induction false} PackableDescends(f: CommitmentForest, source: Cut, t: NodePath, q: NodePath)
    requires t <= q && f.Lookup(q).Some? && f.Lookup(t).Some? && Packable(f.Lookup(t).value, t, source)
    requires forall s :: s in source ==> !(s < q)
    ensures Packable(f.Lookup(q).value, q, source)
    decreases |q|
  {
    if t != q {
      var up := Parent(q);
      f.LookupPrefix(up, q);
      PackableDescends(f, source, t, up);
      assert up < q;
      f.LookupChild(up, q[|q| - 1]);
      assert q == Child(up, q[|q| - 1]);
    }
  }

  lemma OpeningStarts(f: CommitmentForest, source: Cut, target: Cut, steps: CutSteps)
    requires f.ValidCut(source) && f.ValidCut(target) && IsSteps(source, target, steps)
    ensures OpeningTowards(f, source, target, source, steps.toOpen)
  {
    forall o | o in steps.toOpen ensures Above(target, o) && Pending(source, steps.toOpen, o) {
      var t :| t in target && OpenedFor(source, t, o);
      var s :| s in source && s <= o;
      if s != o {
        assert OpenedFor(source, t, Parent(o));
      }
    }
    forall t | t in target && Covers(source, t) ensures Pending(source, steps.toOpen, t) {
      var s :| s in source && s <= t;
      if s != t {
        assert OpenedFor(source, t, Parent(t));
      }
    }
  }

  lemma PackingStarts(f: CommitmentForest, source: Cut, target: Cut, steps: CutSteps, cut: Cut)
    requires f.ValidCut(source) && f.ValidCut(target) && Derives(f, source, target) && IsSteps(source, target, steps)
    requires OpeningTowards(f, source, target, cut, [])
    ensures PackingTowards(f, target, cut, steps.toPack)
  {
    StepsExist(f, source, target, steps);
    forall p | p in steps.toPack
      ensures f.Lookup(p).value.children != [] && Covers(target, p)
      ensures forall i :: 0 <= i < |f.Lookup(p).value.children| ==> Child(p, i) in cut || Child(p, i) in steps.toPack
    {
      var t :| t in target && PackedFor(source, t, p);
      var s :| s in source && p < s;
      f.LookupPrefix(p, s);
      if Covers(source, t) {
        var s' :| s' in source && s' <= t;
        CoveredPath(f, source, s', t);
      }
      forall i | 0 <= i < |f.Lookup(p).value.children| ensures Child(p, i) in cut || Child(p, i) in steps.toPack {
        PackChild(f, source, target, steps, cut, t, p, i);
      }
    }
    forall t | t in target ensures t in cut || t in steps.toPack {
      if !Covers(source, t) {
        PackableReachesSource(f, t, source);
        assert PackedFor(source, t, t);
      } else {
        assert Pending(cut, [], t);
      }
    }
  }

  /** Each child of a branch to pack is a source node left alone, or a branch to pack. */
  lemma PackChild(f: CommitmentForest, source: Cut, target: Cut, steps: CutSteps, cut: Cut,
                  t: NodePath, p: NodePath, i: nat)
    requires f.ValidCut(source) && f.ValidCut(target) && IsSteps(source, target, steps)
    requires OpeningTowards(f, source, target, cut, [])
    requires t in target && PackedFor(source, t, p) && Packable(f.Lookup(t).value, t, source)
    requires f.IsBranch(p) && i < |f.Lookup(p).value.children|
    ensures Child(p, i) in cut || Child(p, i) in steps.toPack
  {
    var c := Child(p, i);
    f.LookupChild(p, i);
    var s :| s in source && p < s;
    forall s' | s' in source ensures !(s' < c) {
      assert s' < c ==> s' <= p;
    }
    PackableDescends(f, source, t, c);
    PackableReachesSource(f, c, source);
    if c in source {
      forall u | u in target ensures !(c < u) {
        assert c < u ==> t <= u;
      }
      assert !Above(target, c);
    } else {
      assert PackedFor(source, t, c);
    }
  }

  /** The steps of a transition replay: from the source, opening parent-first and
      then packing child-first never fails, and ends in a valid cut that holds
      every target node and covers what the source covered. */
  lemma TransitionReplays(f: CommitmentForest, source: Cut, target: Cut, steps: CutSteps) returns (end: Cut)
    requires f.ValidCut(source) && f.ValidCut(target)
    requires Derives(f, source, target) && IsSteps(source, target, steps)
    ensures OpenAll(f, source, steps.toOpen).Some?
    ensures PackAll(f, OpenAll(f, source, steps.toOpen).value, steps.toPack) == Some(end)
    ensures f.ValidCut(end) && target <= end && f.SameCoverage(source, end)
  {
    OpeningStarts(f, source, target, steps);
    OpenAllSucceeds(f, source, target, source, steps.toOpen);
    var middle := OpenAll(f, source, steps.toOpen).value;
    PackingStarts(f, source, target, steps, middle);
    PackAllSucceeds(f, target, middle, steps.toPack);
    end := PackAll(f, middle, steps.toPack).value;
  }

  // ---------- Transitions are complete for runs of opens and packs ----------

  datatype Move = Opening(branch: NodePath) | Packing(branch: NodePath)

  function Moved(f: CommitmentForest, cut: Cut, move: Move): Option<Cut> {
    if move.Opening? then f.Open(cut, move.branch) else f.Pack(cut, move.branch)
  }

  /** Any sequence of opens and packs, in any order. */
  function Run(f: CommitmentForest, cut: Cut, moves: seq<Move>): Option<Cut>
    decreases |moves|
  {
    if moves == [] then Some(cut)
    else
      match Moved(f, cut, moves[0])
      case None => None
      case Some(next) => Run(f, next, moves[1..])
  }

  lemma {:induction false} RunPreserves(f: CommitmentForest, cut: Cut, moves: seq<Move>)
    requires f.ValidCut(cut) && Run(f, cut, moves).Some?
    ensures f.ValidCut(Run(f, cut, moves).value)
    ensures f.SameCoverage(cut, Run(f, cut, moves).value)
    decreases |moves|
  {
    if moves != [] {
      if moves[0].Opening? {
        f.OpenPreserves(cut, moves[0].branch);
        RunPreserves(f, f.Open(cut, moves[0].branch).value, moves[1..]);
      } else {
        f.PackPreserves(cut, moves[0].branch);
        RunPreserves(f, f.Pack(cut, moves[0].branch).value, moves[1..]);
      }
    }
  }

  function OpenMoves(branches: seq<NodePath>): seq<Move> {
    if branches == [] then [] else [Opening(branches[0])] + OpenMoves(branches[1..])
  }

  function PackMoves(branches: seq<NodePath>): seq<Move> {
    if branches == [] then [] else [Packing(branches[0])] + PackMoves(branches[1..])
  }

  lemma {:induction false} RunOpens(f: CommitmentForest, cut: Cut, branches: seq<NodePath>, rest: seq<Move>)
    requires OpenAll(f, cut, branches).Some?
    ensures Run(f, cut, OpenMoves(branches) + rest) == Run(f, OpenAll(f, cut, branches).value, rest)
    decreases |branches|
  {
    var moves := OpenMoves(branches) + rest;
    if branches == [] {
      assert moves == rest;
    } else {
      assert moves[1..] == OpenMoves(branches[1..]) + rest;
      RunOpens(f, f.Open(cut, branches[0]).value, branches[1..], rest);
    }
  }

  lemma {:induction false} RunPacks(f: CommitmentForest, cut: Cut, branches: seq<NodePath>)
    requires PackAll(f, cut, branches).Some?
    ensures Run(f, cut, PackMoves(branches)) == PackAll(f, cut, branches)
    decreases |branches|
  {
    if branches != [] {
      assert PackMoves(branches)[1..] == PackMoves(branches[1..]);
      RunPacks(f, f.Pack(cut, branches[0]).value, branches[1..]);
    }
  }

  function Prefix(p: NodePath, n: nat): NodePath
    requires 0 < n <= |p|
  {
    p[..n]
  }

  /** The steps between two cuts exist and are unique as sets, so their ordered lists exist. */
  lemma StepsExistFor(source: Cut, target: Cut) returns (steps: CutSteps)
    ensures IsSteps(source, target, steps)
  {
    var toOpen := set t, n | t in target && 0 < n < |t| && Covers(source, Prefix(t, n)) :: Prefix(t, n);
    var toPack := set s, n | s in source && 0 < n < |s| && Covers(target, Prefix(s, n)) :: Prefix(s, n);
    forall q ensures q in toOpen <==> exists t :: t in target && OpenedFor(source, t, q) {
      if exists t :: t in target && OpenedFor(source, t, q) {
        var t :| t in target && OpenedFor(source, t, q);
        assert q == Prefix(t, |q|);
      }
    }
    forall q ensures q in toPack <==> exists t :: t in target && PackedFor(source, t, q) {
      if exists t :: t in target && PackedFor(source, t, q) {
        var t :| t in target && PackedFor(source, t, q);
        var s :| s in source && q < s;
        assert q == Prefix(s, |q|);
      }
      if q in toPack {
        var t :| t in target && t <= q;
        assert PackedFor(source, t, q);
      }
    }
    steps := CutSteps(Ordered(Lexicographic, source * target), Ordered(ParentFirst, toOpen), Ordered(ChildFirst, toPack));
  }

  /** From the source, the moves end in a cut that holds every target node. */
  ghost predicate Reaches(f: CommitmentForest, source: Cut, target: Cut, moves: seq<Move>) {
    Run(f, source, moves).Some? && target <= Run(f, source, moves).value
  }

  /** The planner is sound and misses nothing: a transition exists exactly when
      some run of opens and packs, in any order, reaches every target node. */
  lemma DerivesIffReachable(f: CommitmentForest, source: Cut, target: Cut)
    requires f.ValidCut(source) && f.ValidCut(target)
    ensures Derives(f, source, target) <==> exists moves :: Reaches(f, source, target, moves)
  {
    if Derives(f, source, target) {
      var steps := StepsExistFor(source, target);
      var end := TransitionReplays(f, source, target, steps);
      var middle := OpenAll(f, source, steps.toOpen).value;
      RunOpens(f, source, steps.toOpen, PackMoves(steps.toPack));
      RunPacks(f, middle, steps.toPack);
      assert Reaches(f, source, target, OpenMoves(steps.toOpen) + PackMoves(steps.toPack));
    }
    forall moves | Reaches(f, source, target, moves) ensures Derives(f, source, target) {
      RunPreserves(f, source, moves);
      var end := Run(f, source, moves).value;
      assert forall leaf :: Covers(target, leaf) ==> Covers(end, leaf);
      DerivesIffCovered(f, source, target);
    }
  }

  // ---------- Transitions do nothing that could be avoided ----------

  /** Only opening a path itself can leave it with no selected node at or above it. */
  lemma OtherMovesKeepCovers(f: CommitmentForest, cut: Cut, move: Move, q: NodePath)
    requires Moved(f, cut, move).Some? && f.Lookup(q).Some? && Covers(cut, q) && move != Opening(q)
    ensures Covers(Moved(f, cut, move).value, q)
  {
    var b, next := move.branch, Moved(f, cut, move).value;
    var s :| s in cut && s <= q;
    if s !in next {
      if move.Opening? {
        f.LookupPrefix(b, q);
        assert Child(b, q[|b|]) in next;
      } else {
        assert b in next && b <= s;
      }
    }
  }

  /** Only packing a path itself can leave it with no selected node strictly below it. */
  lemma OtherMovesKeepAbove(f: CommitmentForest, cut: Cut, move: Move, q: NodePath)
    requires Moved(f, cut, move).Some? && Above(cut, q) && move != Packing(q)
    ensures Above(Moved(f, cut, move).value, q)
  {
    var b, next := move.branch, Moved(f, cut, move).value;
    var s :| s in cut && q < s;
    if s !in next {
      if move.Opening? {
        assert Child(b, 0) in next && q < Child(b, 0);
      } else {
        assert b in next && q < b;
      }
    }
  }

  /** A run after which a covered path is no longer covered has opened it. */
  lemma {:induction false} UncoveredOnlyByOpening(f: CommitmentForest, cut: Cut, moves: seq<Move>, q: NodePath)
    requires Run(f, cut, moves).Some? && f.Lookup(q).Some?
    requires Covers(cut, q) && !Covers(Run(f, cut, moves).value, q)
    ensures Opening(q) in moves
    decreases |moves|
  {
    if moves != [] {
      if moves[0] != Opening(q) {
        OtherMovesKeepCovers(f, cut, moves[0], q);
        UncoveredOnlyByOpening(f, Moved(f, cut, moves[0]).value, moves[1..], q);
      }
    }
  }

  /** A run after which nothing is selected below a path that had something below it has packed it. */
  lemma {:induction false} EmptiedOnlyByPacking(f: CommitmentForest, cut: Cut, moves: seq<Move>, q: NodePath)
    requires Run(f, cut, moves).Some?
    requires Above(cut, q) && !Above(Run(f, cut, moves).value, q)
    ensures Packing(q) in moves
    decreases |moves|
  {
    if moves != [] {
      if moves[0] != Packing(q) {
        OtherMovesKeepAbove(f, cut, moves[0], q);
        EmptiedOnlyByPacking(f, Moved(f, cut, moves[0]).value, moves[1..], q);
      }
    }
  }

  /** The planner does nothing in vain: every run from the source that reaches the target, however it goes about it,
      opens every branch that the transition opens and packs every branch that it packs. */
  lemma StepsAreUnavoidable(f: CommitmentForest, source: Cut, target: Cut, steps: CutSteps, moves: seq<Move>,
                            q: NodePath)
    requires f.ValidCut(source) && f.ValidCut(target) && IsSteps(source, target, steps)
    requires Reaches(f, source, target, moves)
    ensures q in steps.toOpen ==> Opening(q) in moves
    ensures q in steps.toPack ==> Packing(q) in moves
  {
    RunPreserves(f, source, moves);
    var end := Run(f, source, moves).value;
    if q in steps.toOpen {
      var t :| t in target && OpenedFor(source, t, q);
      f.LookupPrefix(q, t);
      UncoveredOnlyByOpening(f, source, moves, q);
    }
    if q in steps.toPack {
      var t :| t in target && PackedFor(source, t, q);
      EmptiedOnlyByPacking(f, source, moves, q);
    }
  }

  ghost predicate IsOpened(steps: CutSteps, t: NodePath) {
    1 < |t| && Parent(t) in steps.toOpen
  }

  /** Every target node is retained, or is laid bare by opening its parent, or is packed itself; never two of these. */
  lemma TargetNodesAreAccounted(f: CommitmentForest, source: Cut, target: Cut, steps: CutSteps, t: NodePath)
    requires f.ValidCut(source) && f.ValidCut(target) && Derives(f, source, target)
    requires IsSteps(source, target, steps) && t in target
    ensures t in steps.retained || IsOpened(steps, t) || t in steps.toPack
    ensures t in steps.retained ==> t in source && !IsOpened(steps, t) && t !in steps.toPack
    ensures IsOpened(steps, t) ==> t !in steps.toPack
  {
    assert Derivable(f, source, t);
    if Covers(source, t) {
      var s :| s in source && s <= t;
      CoveredPath(f, source, s, t);
      if s != t {
        assert OpenedFor(source, t, Parent(t));
      }
    } else {
      PackableReachesSource(f, t, source);
      assert PackedFor(source, t, t);
    }
    if t in steps.toPack {
      var t' :| t' in target && PackedFor(source, t', t);
      assert t' == t;
    }
    if IsOpened(steps, t) {
      assert Covers(source, Parent(t));
    }
  }
}
