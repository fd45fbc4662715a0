/** What the cuts of a commitment plan select, said of the graph, the families and the cohorts alone. */
module PlanLaws {
  import opened Wrappers
  import opened Ordering
  import opened Forests
  import F = Families
  import opened ForestBuilding
  import opened RouteGraphs
  import opened Cuts
  import opened Planning

  // ---------- What is said ----------

  /** The cut selects the actor's own leaf. */
  ghost predicate ShowsLeaf(f: CommitmentForest, cut: Cut, x: Name) {
    exists p :: p in cut && f.Lookup(p) == Some(Leaf(x))
  }

  /** The cut selects the family's branch. */
  ghost predicate ShowsBranch(f: CommitmentForest, cut: Cut, family: seq<Name>) {
    exists p :: p in cut && f.Lookup(p).Some? && IsBranchOf(family, f.Lookup(p).value)
  }

  /** An actor consumes directly, and what any member of its cohort is or consumes directly, it holds open. */
  ghost predicate HoldsOpen(g: Graph, cohorts: set<set<Name>>, a: Name, x: Name) {
    Consume(g, a, x) || exists c, m :: c in cohorts && a in c && m in c && (x == m || Consume(g, m, x))
  }

  /** Some member of the family is held open. */
  ghost predicate HoldsFamilyOpen(g: Graph, cohorts: set<set<Name>>, a: Name, family: seq<Name>) {
    exists y :: y in family && HoldsOpen(g, cohorts, a, y)
  }

  ghost predicate InOpenFamily(g: Graph, cohorts: set<set<Name>>, families: set<seq<Name>>, a: Name, x: Name) {
    exists f :: f in families && x in f && HoldsFamilyOpen(g, cohorts, a, f)
  }

  ghost predicate Meets(family: seq<Name>, s: set<Name>) {
    exists y :: y in family && y in s
  }

  // ---------- Cuts over the planned roots ----------

  ghost predicate HasRoots(f: CommitmentForest, actors: set<Name>, families: set<seq<Name>>) {
    GoodFamilies(actors, families) && f.roots == RootsOver(Sorted(Lexicographic, actors), families)
  }

  /** Every root stands for a standalone actor or a family. */
  lemma RootStands(f: CommitmentForest, actors: set<Name>, families: set<seq<Name>>, r: nat) returns (s: set<Name>)
    requires HasRoots(f, actors, families) && r < |f.roots|
    ensures StandsFor(families, f.roots[r], s)
  {
    var order := Sorted(Lexicographic, actors);
    assert Elements(order) == actors;
    var emitters := RootsAreEmittedInOrder(order, families);
    s := EmitterIsLeast(order, families, emitters[r], f.roots[r]);
  }

  lemma BranchHoldsMembers(family: seq<Name>, node: CommitmentNode, s: set<Name>)
    requires IsBranchOf(family, node)
    ensures Holds(node, s) <==> Meets(family, s)
  {
    if y :| y in family && y in s {
      var j :| 0 <= j < |family| && family[j] == y;
      assert node.children[j].Leaf?;
    }
  }

  lemma BranchIsOneFamilys(a: seq<Name>, b: seq<Name>, node: CommitmentNode)
    requires IsBranchOf(a, node) && IsBranchOf(b, node)
    ensures a == b
  {
    assert forall j :: 0 <= j < |a| ==> node.children[j] == Leaf(a[j]) && node.children[j] == Leaf(b[j]);
  }

  /** A selected path is a root, or a child of a family's branch some member of which is exposed. */
  lemma SelectedPath(f: CommitmentForest, actors: set<Name>, families: set<seq<Name>>, needs: set<Name>,
                     exposed: set<Name>, p: NodePath)
    requires HasRoots(f, actors, families) && Selected(f, needs, exposed, p)
    ensures match f.Lookup(p).value
            case Leaf(x) =>
              if Standalone(families, x) then x in needs + exposed
              else exists h :: h in families && x in h && Meets(h, exposed)
            case Branch(_) =>
              exists h :: h in families && IsBranchOf(h, f.Lookup(p).value) && Meets(h, needs) && !Meets(h, exposed)
  {
    assert f.Lookup(Root(p[0])).Some? by {
      f.LookupPrefix(Root(p[0]), p);
    }
    var node := f.roots[p[0]];
    var s := RootStands(f, actors, families, p[0]);
    assert |p| == 1 ==> p == Root(p[0]);
    assert |p| == 2 ==> p == Child(Root(p[0]), p[1]);
    if node.Branch? {
      var h :| h in families && IsBranchOf(h, node);
      BranchHoldsMembers(h, node, needs);
      BranchHoldsMembers(h, node, exposed);
      if |p| == 2 {
        f.LookupChild(Root(p[0]), p[1]);
        assert f.Lookup(p) == Some(Leaf(h[p[1]])) && h[p[1]] in h;
      }
    }
  }

  /** The leaf of a standalone actor that is needed or exposed is selected. */
  lemma StandaloneSelected(f: CommitmentForest, actors: set<Name>, families: set<seq<Name>>, needs: set<Name>,
                           exposed: set<Name>, x: Name) returns (p: NodePath)
    requires HasRoots(f, actors, families) && x in actors && Standalone(families, x) && x in needs + exposed
    ensures f.Lookup(p) == Some(Leaf(x)) && Selected(f, needs, exposed, p)
  {
    var r, s := EveryActorHasRoot(Sorted(Lexicographic, actors), families, x);
    p := Root(r);
  }

  lemma FamilyRoot(f: CommitmentForest, actors: set<Name>, families: set<seq<Name>>, h: seq<Name>) returns (r: nat)
    requires HasRoots(f, actors, families) && h in families
    ensures f.Lookup(Root(r)).Some? && IsBranchOf(h, f.Lookup(Root(r)).value)
  {
    assert h[0] in Elements(h);
    r := RootsHoldFamily(Sorted(Lexicographic, actors), families, h, h[0]);
    assert IsBranchOf(h, Branch(Leaves(h)));
  }

  /** Every leaf of a family with an exposed member is selected. */
  lemma OpenFamilySelected(f: CommitmentForest, actors: set<Name>, families: set<seq<Name>>, needs: set<Name>,
                           exposed: set<Name>, h: seq<Name>, x: Name) returns (p: NodePath)
    requires HasRoots(f, actors, families) && h in families && x in h && Meets(h, exposed)
    ensures f.Lookup(p) == Some(Leaf(x)) && Selected(f, needs, exposed, p)
  {
    var r := FamilyRoot(f, actors, families, h);
    var j :| 0 <= j < |h| && h[j] == x;
    p := Child(Root(r), j);
    f.LookupChild(Root(r), j);
    BranchHoldsMembers(h, f.Lookup(Root(r)).value, exposed);
    assert Root(p[0]) == Root(r);
  }

  lemma LeavesOfCut(f: CommitmentForest, actors: set<Name>, families: set<seq<Name>>, needs: set<Name>,
                    exposed: set<Name>, cut: Cut, x: Name)
    requires HasRoots(f, actors, families) && IsCutFor(f, needs, exposed, cut) && x in actors
    ensures ShowsLeaf(f, cut, x) <==>
              if Standalone(families, x) then x in needs + exposed
              else exists h :: h in families && x in h && Meets(h, exposed)
  {
    if ShowsLeaf(f, cut, x) {
      var p :| p in cut && f.Lookup(p) == Some(Leaf(x));
      SelectedPath(f, actors, families, needs, exposed, p);
    } else if Standalone(families, x) && x in needs + exposed {
      var p := StandaloneSelected(f, actors, families, needs, exposed, x);
    } else if h :| h in families && x in h && Meets(h, exposed) {
      var p := OpenFamilySelected(f, actors, families, needs, exposed, h, x);
    }
  }

  lemma BranchesOfCut(f: CommitmentForest, actors: set<Name>, families: set<seq<Name>>, needs: set<Name>,
                      exposed: set<Name>, cut: Cut, h: seq<Name>)
    requires HasRoots(f, actors, families) && IsCutFor(f, needs, exposed, cut) && h in families
    ensures ShowsBranch(f, cut, h) <==> Meets(h, needs) && !Meets(h, exposed)
  {
    if ShowsBranch(f, cut, h) {
      var p :| p in cut && f.Lookup(p).Some? && IsBranchOf(h, f.Lookup(p).value);
      SelectedPath(f, actors, families, needs, exposed, p);
      var k :| k in families && IsBranchOf(k, f.Lookup(p).value) && Meets(k, needs) && !Meets(k, exposed);
      BranchIsOneFamilys(h, k, f.Lookup(p).value);
    }
    if Meets(h, needs) && !Meets(h, exposed) {
      var r := FamilyRoot(f, actors, families, h);
      BranchHoldsMembers(h, f.Lookup(Root(r)).value, needs);
      BranchHoldsMembers(h, f.Lookup(Root(r)).value, exposed);
      assert Selected(f, needs, exposed, Root(r));
    }
  }

  // ---------- Laws of plans ----------

  /** A plan over acceptable families, and the graph with the cohorts' cliques. */
  ghost predicate IsPlanOver(g: Graph, families: set<seq<Name>>, cohorts: set<set<Name>>, h: Graph,
                             plan: CommitmentPlan) {
    && g.Valid() && KnownCohorts(g, cohorts) && GoodFamilies(g.actors, families)
    && IsCliqued(g, cohorts, h) && IsPlan(g, families, cohorts, plan)
  }

  /** The planner accepts exactly such families, each listed once. */
  lemma FamiliesAcceptedExactly(actors: set<Name>, families: F.Families)
    ensures F.FamiliesOk(actors, families) <==>
              GoodFamilies(actors, FamilySet(families)) && forall i, j :: 0 <= i < j < |families| ==> families[i] != families[j]
  {
    if F.FamiliesOk(actors, families) {
      AcceptedFamiliesAreGood(actors, families);
    }
    if GoodFamilies(actors, FamilySet(families)) && forall i, j :: 0 <= i < j < |families| ==> families[i] != families[j] {
      forall k | 0 <= k < |families| ensures families[k] in FamilySet(families) {
      }
      forall k, a | 0 <= k < |families| && a in families[k] ensures a in actors {
        assert a in Elements(families[k]);
      }
    }
  }

  lemma AcceptedFamiliesAreGood(actors: set<Name>, families: F.Families)
    requires F.FamiliesOk(actors, families)
    ensures GoodFamilies(actors, FamilySet(families))
    ensures forall i, j :: 0 <= i < j < |families| ==> families[i] != families[j]
  {
    forall f, h, a | f in FamilySet(families) && h in FamilySet(families) && a in f && a in h ensures f == h {
      var i :| 0 <= i < |families| && families[i] == f;
      var j :| 0 <= j < |families| && families[j] == h;
    }
    forall i, j | 0 <= i < j < |families| ensures families[i] != families[j] {
      assert families[i][0] in families[i];
    }
  }

  /** The planner accepts exactly disjoint non-empty cohorts of known actors, each listed once. */
  lemma CohortsAcceptedExactly(g: Graph, cohorts: F.Cohorts)
    ensures F.CohortsOk(g.actors, cohorts) <==>
              && KnownCohorts(g, CohortSet(cohorts)) && DisjointCohorts(CohortSet(cohorts)) && {} !in cohorts
              && forall i, j :: 0 <= i < j < |cohorts| ==> cohorts[i] != cohorts[j]
  {
    forall k | 0 <= k < |cohorts| ensures cohorts[k] in CohortSet(cohorts) {
    }
    if F.CohortsOk(g.actors, cohorts) {
      CohortsOkAsSet(g, cohorts);
      forall i, j | 0 <= i < j < |cohorts| ensures cohorts[i] != cohorts[j] {
        var a :| a in cohorts[i];
      }
    }
    if DisjointCohorts(CohortSet(cohorts)) && forall i, j :: 0 <= i < j < |cohorts| ==> cohorts[i] != cohorts[j] {
      forall i, j | 0 <= i < j < |cohorts| ensures cohorts[i] !! cohorts[j] {
        assert forall a :: a in cohorts[i] ==> a !in cohorts[j];
      }
    }
  }

  /** The two sets a planned cut is selected by. */
  lemma PlannedCut(g: Graph, families: set<seq<Name>>, cohorts: set<set<Name>>, h: Graph, plan: CommitmentPlan, a: Name)
    returns (needs: set<Name>, exposed: set<Name>)
    requires IsPlanOver(g, families, cohorts, h, plan) && a in g.actors
    ensures a in plan.cuts && HasRoots(plan.forest, g.actors, families)
    ensures IsCutFor(plan.forest, needs, exposed, plan.cuts[a])
    ensures forall x :: x in needs <==> Needed(h, a, x)
    ensures forall x :: x in exposed <==> HoldsOpen(g, cohorts, a, x)
  {
    assert HasPlannedCut(g, cohorts, plan, a);
    needs, exposed := NeedsIn(h, a), Exposed(g, cohorts, a);
    forall x | Needed(h, a, x) ensures x in h.actors { NeededIsActor(h, a, x); }
    NeedsAgree(h, Cliqued(g, cohorts), a, needs);
    forall x ensures x in exposed <==> HoldsOpen(g, cohorts, a, x) {
      ExposedIsHeldOpen(g, cohorts, a, x);
    }
  }

  lemma ExposedIsHeldOpen(g: Graph, cohorts: set<set<Name>>, a: Name, x: Name)
    requires g.Valid() && KnownCohorts(g, cohorts)
    ensures x in Exposed(g, cohorts, a) <==> HoldsOpen(g, cohorts, a, x)
  {
    if c, m :| c in cohorts && a in c && m in c && (x == m || Consume(g, m, x)) {
      assert x in c || ConsumedBy(g, c, x);
      assert ExposedWith(g, cohorts, a, x);
    }
    if c :| c in cohorts && a in c && (x in c || ConsumedBy(g, c, x)) {
      var m :| m in c && (x == m || Consume(g, m, x));
    }
  }

  /** What an actor consumes directly, what shares its cohort, and what a member of its cohort consumes directly: each
      has its own leaf in the actor's cut. */
  lemma HeldOpenIsShown(g: Graph, families: set<seq<Name>>, cohorts: set<set<Name>>, h: Graph, plan: CommitmentPlan,
                        a: Name, x: Name)
    requires IsPlanOver(g, families, cohorts, h, plan) && a in g.actors
    requires Consume(g, a, x) || exists c, m :: c in cohorts && a in c && m in c && (x == m || Consume(g, m, x))
    ensures ShowsLeaf(plan.forest, plan.cuts[a], x)
  {
    var needs, exposed := PlannedCut(g, families, cohorts, h, plan, a);
    assert HoldsOpen(g, cohorts, a, x) && x in exposed;
    LeavesOfCut(plan.forest, g.actors, families, needs, exposed, plan.cuts[a], x);
  }

  /** The leaves in a cut, exactly: a standalone actor's when it is needed or held open, and a family member's when some
      member of the family is held open. */
  lemma LeavesShownExactly(g: Graph, families: set<seq<Name>>, cohorts: set<set<Name>>, h: Graph, plan: CommitmentPlan,
                           a: Name, x: Name)
    requires IsPlanOver(g, families, cohorts, h, plan) && a in g.actors && x in g.actors
    ensures ShowsLeaf(plan.forest, plan.cuts[a], x) <==>
              if Standalone(families, x) then Needed(h, a, x) || HoldsOpen(g, cohorts, a, x)
              else InOpenFamily(g, cohorts, families, a, x)
  {
    var needs, exposed := PlannedCut(g, families, cohorts, h, plan, a);
    LeavesOfCut(plan.forest, g.actors, families, needs, exposed, plan.cuts[a], x);
    forall f | f in families ensures Meets(f, exposed) <==> HoldsFamilyOpen(g, cohorts, a, f) {
      assert forall y :: y in f && y in exposed <==> y in f && HoldsOpen(g, cohorts, a, y);
    }
  }

  /** The branches in a cut, exactly: a family stays packed when some member is needed and none is held open, and then
      none of its leaves is selected. */
  lemma BranchesShownExactly(g: Graph, families: set<seq<Name>>, cohorts: set<set<Name>>, h: Graph,
                             plan: CommitmentPlan, a: Name, f: seq<Name>)
    requires IsPlanOver(g, families, cohorts, h, plan) && a in g.actors && f in families
    ensures ShowsBranch(plan.forest, plan.cuts[a], f) <==>
              (exists y :: y in f && Needed(h, a, y)) && !HoldsFamilyOpen(g, cohorts, a, f)
    ensures ShowsBranch(plan.forest, plan.cuts[a], f) ==>
              forall x :: x in f ==> !ShowsLeaf(plan.forest, plan.cuts[a], x)
  {
    var needs, exposed := PlannedCut(g, families, cohorts, h, plan, a);
    BranchesOfCut(plan.forest, g.actors, families, needs, exposed, plan.cuts[a], f);
    assert Meets(f, exposed) <==> HoldsFamilyOpen(g, cohorts, a, f) by {
      assert forall y :: y in f && y in exposed <==> y in f && HoldsOpen(g, cohorts, a, y);
    }
    assert Meets(f, needs) <==> exists y :: y in f && Needed(h, a, y) by {
      assert forall y :: y in f && y in needs <==> y in f && Needed(h, a, y);
    }
    forall x | x in f && ShowsBranch(plan.forest, plan.cuts[a], f) ensures !ShowsLeaf(plan.forest, plan.cuts[a], x) {
      assert x in Elements(f);
      LeavesOfCut(plan.forest, g.actors, families, needs, exposed, plan.cuts[a], x);
    }
  }

  /** A cut selects nothing but leaves of actors and branches of families. */
  lemma OnlyLeavesAndBranches(g: Graph, families: set<seq<Name>>, cohorts: set<set<Name>>, h: Graph,
                              plan: CommitmentPlan, a: Name, p: NodePath)
    requires IsPlanOver(g, families, cohorts, h, plan) && a in g.actors && p in plan.cuts[a]
    ensures plan.forest.Lookup(p).Some?
    ensures match plan.forest.Lookup(p).value
            case Leaf(x) => Needed(h, a, x) || HoldsOpen(g, cohorts, a, x) || InOpenFamily(g, cohorts, families, a, x)
            case Branch(_) => exists f :: f in families && IsBranchOf(f, plan.forest.Lookup(p).value)
  {
    var needs, exposed := PlannedCut(g, families, cohorts, h, plan, a);
    SelectedPath(plan.forest, g.actors, families, needs, exposed, p);
    if plan.forest.Lookup(p).value.Leaf? && !Standalone(families, plan.forest.Lookup(p).value.actor) {
      var x := plan.forest.Lookup(p).value.actor;
      var f :| f in families && x in f && Meets(f, exposed);
      assert HoldsFamilyOpen(g, cohorts, a, f);
    }
  }
}
