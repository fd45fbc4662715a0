/** The commitment plan: one forest, and one cut for every actor. */
module Planning {
  import opened Wrappers
  import opened Ordering
  import opened Forests
  import opened Families
  import opened ForestBuilding
  import opened Transitions
  import opened Cuts
  import opened RouteGraphs

  datatype CommitmentConstraints = CommitmentConstraints(families: Families, cohorts: Cohorts)

  datatype CommitmentPlan = CommitmentPlan(forest: CommitmentForest, cuts: map<Name, Cut>)

  // ---------- What the plan is, independently of how families and cohorts are listed ----------

  ghost function CohortSet(cohorts: Cohorts): set<set<Name>> {
    set c | c in cohorts
  }

  /** Two distinct members of one cohort. */
  ghost predicate Together(cohorts: set<set<Name>>, a: Name, b: Name) {
    a != b && exists c :: c in cohorts && a in c && b in c
  }

  /** The graph with an emit edge added between every two members of a cohort. */
  ghost predicate IsCliqued(g: Graph, cohorts: set<set<Name>>, h: Graph) {
    && h.Valid() && h.actors == g.actors && h.consumes == g.consumes
    && forall a, b :: Emit(h, a, b) <==> Emit(g, a, b) || Together(cohorts, a, b)
  }

  ghost predicate KnownCohorts(g: Graph, cohorts: set<set<Name>>) {
    forall c :: c in cohorts ==> c <= g.actors
  }

  ghost function Cliqued(g: Graph, cohorts: set<set<Name>>): (h: Graph)
    requires g.Valid() && KnownCohorts(g, cohorts)
    ensures IsCliqued(g, cohorts, h)
  {
    var h := g.(emits := map a | a in g.actors :: (set b | b in g.actors && (Emit(g, a, b) || Together(cohorts, a, b))));
    assert forall a, b :: Emit(g, a, b) || Together(cohorts, a, b) ==> a in g.actors && b in g.actors;
    h
  }

  ghost function NeedsIn(h: Graph, a: Name): set<Name> {
    set x | x in h.actors && Needed(h, a, x)
  }

  /** What an actor's cut must hold open: its direct consumes, and for a cohort
      member the whole cohort and all its members' direct consumes. */
  ghost function Exposed(g: Graph, cohorts: set<set<Name>>, a: Name): set<Name> {
    set x | x in g.actors && (Consume(g, a, x) || ExposedWith(g, cohorts, a, x))
  }

  ghost predicate ExposedWith(g: Graph, cohorts: set<set<Name>>, a: Name, x: Name) {
    exists c :: c in cohorts && a in c && (x in c || ConsumedBy(g, c, x))
  }

  ghost predicate ConsumedBy(g: Graph, c: set<Name>, x: Name) {
    exists m :: m in c && Consume(g, m, x)
  }

  ghost predicate IsPlan(g: Graph, families: set<seq<Name>>, cohorts: set<set<Name>>, plan: CommitmentPlan)
    requires g.Valid() && KnownCohorts(g, cohorts)
  {
    && plan.forest.roots == RootsOver(Sorted(Lexicographic, g.actors), families)
    && plan.cuts.Keys == g.actors
    && forall a {:trigger HasPlannedCut(g, cohorts, plan, a)} :: a in g.actors ==> HasPlannedCut(g, cohorts, plan, a)
  }

  /** The actor carries the cut for what it needs in the cliqued graph and what it must hold open. */
  ghost predicate HasPlannedCut(g: Graph, cohorts: set<set<Name>>, plan: CommitmentPlan, a: Name)
    requires g.Valid() && KnownCohorts(g, cohorts)
  {
    && a in plan.cuts
    && IsCutFor(plan.forest, NeedsIn(Cliqued(g, cohorts), a), Exposed(g, cohorts, a), plan.cuts[a])
  }

  // ---------- What follows from being the plan ----------

  /** A plan is determined by the graph and the sets of families and cohorts: listing
      them in another order changes neither the forest nor any cut. */
  lemma PlanIsUnique(g: Graph, families: set<seq<Name>>, cohorts: set<set<Name>>, p: CommitmentPlan, q: CommitmentPlan)
    requires g.Valid() && KnownCohorts(g, cohorts)
    requires IsPlan(g, families, cohorts, p) && IsPlan(g, families, cohorts, q)
    ensures p == q
  {
    forall a | a in g.actors ensures p.cuts[a] == q.cuts[a] {
      assert HasPlannedCut(g, cohorts, p, a) && HasPlannedCut(g, cohorts, q, a);
      CutIsUnique(p.forest, NeedsIn(Cliqued(g, cohorts), a), Exposed(g, cohorts, a), p.cuts[a], q.cuts[a]);
    }
    assert p.cuts == q.cuts;
  }

  lemma CutIsUnique(f: CommitmentForest, needs: set<Name>, exposed: set<Name>, a: Cut, b: Cut)
    requires IsCutFor(f, needs, exposed, a) && IsCutFor(f, needs, exposed, b)
    ensures a == b
  {
    assert forall x :: x in a <==> x in b;
  }

  lemma {:induction false} WalkEndsInGraph(h: Graph, p: seq<Name>)
    requires h.Valid() && Walk(h, p) && 2 <= |p|
    ensures p[0] in h.actors && p[|p| - 1] in h.actors
  {
    if 2 < |p| {
      WalkEndsInGraph(h, p[1..]);
    }
  }

  lemma NeededIsActor(h: Graph, a: Name, x: Name)
    requires h.Valid() && Needed(h, a, x)
    ensures x in h.actors
  {
    if !Consume(h, a, x) {
      var y :| Reaches(h, a, y) && (x == y || Consume(h, y, x));
      var p :| 2 <= |p| && WalkBetween(h, a, y, p);
      WalkEndsInGraph(h, p);
    }
  }

  /** Needs pass from an emit target to its source. */
  lemma NeedsGrowUpstream(h: Graph, a: Name, b: Name)
    requires h.Valid() && Emit(h, a, b)
    ensures b in NeedsIn(h, a) && NeedsIn(h, b) <= NeedsIn(h, a)
  {
    ReachesByEdge(h, a, b);
    NeedsFollowReach(h, a, b);
  }

  /** In the cliqued graph the members of a cohort have equal needs. */
  lemma CohortNeedsAreEqual(g: Graph, cohorts: set<set<Name>>, h: Graph, c: set<Name>, a: Name, b: Name)
    requires IsCliqued(g, cohorts, h) && c in cohorts && a in c && b in c
    ensures NeedsIn(h, a) == NeedsIn(h, b)
  {
    if a != b {
      assert Together(cohorts, a, b) && Together(cohorts, b, a);
      NeedsGrowUpstream(h, a, b);
      NeedsGrowUpstream(h, b, a);
    }
  }

  ghost predicate DisjointCohorts(cohorts: set<set<Name>>) {
    forall c, d, a :: c in cohorts && d in cohorts && a in c && a in d ==> c == d
  }

  /** All members of a cohort have the same cut. */
  lemma CohortsShareCuts(g: Graph, families: set<seq<Name>>, cohorts: set<set<Name>>, plan: CommitmentPlan,
                         c: set<Name>, a: Name, b: Name)
    requires g.Valid() && KnownCohorts(g, cohorts) && DisjointCohorts(cohorts)
    requires IsPlan(g, families, cohorts, plan) && c in cohorts && a in c && b in c
    ensures plan.cuts[a] == plan.cuts[b]
  {
    CohortNeedsAreEqual(g, cohorts, Cliqued(g, cohorts), c, a, b);
    ExposedInCohort(g, cohorts, c, a);
    ExposedInCohort(g, cohorts, c, b);
    assert HasPlannedCut(g, cohorts, plan, a) && HasPlannedCut(g, cohorts, plan, b);
    CutIsUnique(plan.forest, NeedsIn(Cliqued(g, cohorts), a), Exposed(g, cohorts, a), plan.cuts[a], plan.cuts[b]);
  }

  ghost function CohortExposure(g: Graph, c: set<Name>): set<Name> {
    set x | x in g.actors && (x in c || ConsumedBy(g, c, x))
  }

  lemma ExposedInCohort(g: Graph, cohorts: set<set<Name>>, c: set<Name>, a: Name)
    requires DisjointCohorts(cohorts) && c in cohorts && a in c
    ensures Exposed(g, cohorts, a) == CohortExposure(g, c)
  {
  }

  /** Each planned cut is valid. */
  lemma PlannedCutsAreValid(g: Graph, families: set<seq<Name>>, cohorts: set<set<Name>>, plan: CommitmentPlan, a: Name)
    requires g.Valid() && KnownCohorts(g, cohorts) && IsPlan(g, families, cohorts, plan) && a in g.actors
    ensures plan.forest.ValidCut(plan.cuts[a])
  {
    assert HasPlannedCut(g, cohorts, plan, a);
    CutForIsValid(plan.forest, NeedsIn(Cliqued(g, cohorts), a), Exposed(g, cohorts, a), plan.cuts[a]);
  }

  /** What an emitted actor needs and holds open, its emitter needs. */
  lemma EmitterNeedsMore(g: Graph, cohorts: set<set<Name>>, h: Graph, a: Name, b: Name)
    requires g.Valid() && IsCliqued(g, cohorts, h) && Emit(g, a, b)
    ensures NeedsIn(h, b) + Exposed(g, cohorts, b) <= NeedsIn(h, a)
  {
    assert Emit(h, a, b);
    NeedsGrowUpstream(h, a, b);
    forall x | x in Exposed(g, cohorts, b) ensures x in NeedsIn(h, a) {
      if Consume(g, b, x) {
        assert Consume(h, b, x) && Needed(h, b, x);
      } else {
        var c :| c in cohorts && b in c && (x in c || ConsumedBy(g, c, x));
        var m := x;
        if x !in c {
          m :| m in c && Consume(g, m, x);
          assert Consume(h, m, x) && Needed(h, m, x);
        }
        CohortNeedsAreEqual(g, cohorts, h, c, b, m);
        if x in c && x != b {
          assert Together(cohorts, b, x);
          NeedsGrowUpstream(h, b, x);
        }
      }
    }
  }

  /** The promise of the planner: along every emit edge of the graph, the emitter's
      cut derives the emitted actor's cut. */
  lemma EmitsAreDerivable(g: Graph, families: set<seq<Name>>, cohorts: set<set<Name>>, plan: CommitmentPlan, a: Name,
                          b: Name)
    requires g.Valid() && KnownCohorts(g, cohorts) && IsPlan(g, families, cohorts, plan) && Emit(g, a, b)
    ensures plan.forest.ValidCut(plan.cuts[a]) && plan.forest.ValidCut(plan.cuts[b])
    ensures Derives(plan.forest, plan.cuts[a], plan.cuts[b])
  {
    var h := Cliqued(g, cohorts);
    PlannedCutsAreValid(g, families, cohorts, plan, a);
    PlannedCutsAreValid(g, families, cohorts, plan, b);
    EmitterNeedsMore(g, cohorts, h, a, b);
    assert HasPlannedCut(g, cohorts, plan, a) && HasPlannedCut(g, cohorts, plan, b);
    SmallerDemandDerives(plan.forest, NeedsIn(h, a), Exposed(g, cohorts, a), plan.cuts[a],
                         NeedsIn(h, b), Exposed(g, cohorts, b), plan.cuts[b]);
  }

  // ---------- Planning ----------

  /** Needs depend on the relations only, not on how the graph stores them. */
  lemma {:induction false} WalksAgree(g: Graph, h: Graph, p: seq<Name>)
    requires forall a, b :: Emit(g, a, b) <==> Emit(h, a, b)
    ensures Walk(g, p) <==> Walk(h, p)
    decreases |p|
  {
    if 1 < |p| {
      WalksAgree(g, h, p[1..]);
    }
  }

  lemma NeedsAgree(g: Graph, h: Graph, a: Name, needs: set<Name>)
    requires g.Valid() && h.Valid() && g.actors == h.actors && g.consumes == h.consumes
    requires forall a, b :: Emit(g, a, b) <==> Emit(h, a, b)
    requires AreNeeds(g, a, needs)
    ensures needs == NeedsIn(h, a)
  {
    forall x, y ensures Reaches(g, x, y) <==> Reaches(h, x, y) {
      forall p ensures WalkBetween(g, x, y, p) <==> WalkBetween(h, x, y, p) {
        WalksAgree(g, h, p);
      }
    }
    forall x ensures x in needs <==> Needed(h, a, x) {
      assert Needed(g, a, x) <==> Needed(h, a, x);
    }
    forall x | Needed(h, a, x) ensures x in h.actors {
      NeededIsActor(h, a, x);
    }
  }

  /** Clone the graph and add every cohort's clique. */
  method CliqueGraph(g: RouteGraph, cohorts: Cohorts) returns (h: RouteGraph)
    requires g.Value().Valid() && CohortsOk(g.actors, cohorts)
    ensures IsCliqued(g.Value(), CohortSet(cohorts), h.Value())
  {
    h := new RouteGraph.Clone(g);
    ghost var v := g.Value();
    for k := 0 to |cohorts|
      invariant fresh(h) && g.Value() == v
      invariant IsCliqued(v, CohortSet(cohorts[..k]), h.Value())
    {
      assert cohorts[..k + 1] == cohorts[..k] + [cohorts[k]];
      assert CohortSet(cohorts[..k + 1]) == CohortSet(cohorts[..k]) + {cohorts[k]};
      h.AddEmitClique(cohorts[k]);
      TogetherOneMore(CohortSet(cohorts[..k]), cohorts[k]);
    }
    assert cohorts[..|cohorts|] == cohorts;
  }

  lemma TogetherOneMore(cohorts: set<set<Name>>, c: set<Name>)
    ensures forall a, b :: Together(cohorts + {c}, a, b) <==> Together(cohorts, a, b) || (a != b && a in c && b in c)
  {
    forall a, b | Together(cohorts, a, b) || (a != b && a in c && b in c) ensures Together(cohorts + {c}, a, b) {
      if Together(cohorts, a, b) {
        var d :| d in cohorts && a in d && b in d;
        assert d in cohorts + {c};
      } else {
        assert c in cohorts + {c};
      }
    }
  }

  /** The cut of one actor is as planned. */
  ghost predicate CutPlanned(g: Graph, cohorts: set<set<Name>>, h: Graph, f: CommitmentForest, a: Name, cut: Cut) {
    IsCutFor(f, NeedsIn(h, a), Exposed(g, cohorts, a), cut)
  }

  lemma CohortsOkAsSet(g: Graph, cohorts: Cohorts)
    requires CohortsOk(g.actors, cohorts)
    ensures KnownCohorts(g, CohortSet(cohorts)) && DisjointCohorts(CohortSet(cohorts))
  {
  }

  /** A cohort with its members' direct consumes. */
  method ExposedActors(g: RouteGraph, cohort: set<Name>) returns (exposed: set<Name>)
    requires g.Value().Valid() && cohort <= g.actors
    ensures exposed == CohortExposure(g.Value(), cohort)
  {
    exposed := cohort;
    var members := Sorted(Lexicographic, cohort);
    ghost var done: set<Name> := {};
    for i := 0 to |members|
      invariant forall m :: m in done <==> m in members[..i]
      invariant forall x :: x in exposed <==> x in cohort || ConsumedBy(g.Value(), done, x)
    {
      assert members[..i + 1] == members[..i] + [members[i]];
      ConsumedByOneMore(g.Value(), done, members[i]);
      done := done + {members[i]};
      exposed := exposed + g.Value().ConsumesOf(members[i]);
    }
    assert members[..|members|] == members && done == cohort;
  }

  lemma ConsumedByOneMore(g: Graph, c: set<Name>, m: Name)
    ensures forall x :: ConsumedBy(g, c + {m}, x) <==> ConsumedBy(g, c, x) || Consume(g, m, x)
  {
    forall x | ConsumedBy(g, c, x) || Consume(g, m, x) ensures ConsumedBy(g, c + {m}, x) {
      var n := m;
      if !Consume(g, m, x) {
        n :| n in c && Consume(g, n, x);
      }
      assert n in c + {m};
    }
  }

  /** The shared cut of a cohort, from its first member's needs. */
  method CohortCut(g: RouteGraph, cohort: set<Name>, needs: map<Name, set<Name>>, families: Families,
                   byActor: map<Name, nat>,
                   loc: Locations, ghost f: CommitmentForest, ghost cohorts: set<set<Name>>, ghost h: Graph)
    returns (cut: Cut)
    requires g.Value().Valid() && ForestPlanned(f, g.actors, families, byActor, loc)
    requires IsCliqued(g.Value(), cohorts, h) && DisjointCohorts(cohorts) && KnownCohorts(g.Value(), cohorts)
    requires needs.Keys == g.actors && forall a :: a in g.actors ==> needs[a] == NeedsIn(h, a)
    requires cohort in cohorts && cohort != {}
    ensures forall m :: m in cohort ==> CutPlanned(g.Value(), cohorts, h, f, m, cut)
  {
    var first := First(Lexicographic, cohort);
    var exposed := ExposedActors(g, cohort);
    cut := CutFor(needs[first], exposed, families, byActor, loc, f, g.actors);
    forall m | m in cohort ensures CutPlanned(g.Value(), cohorts, h, f, m, cut) {
      CohortNeedsAreEqual(g.Value(), cohorts, h, cohort, first, m);
      ExposedInCohort(g.Value(), cohorts, cohort, m);
    }
  }

  /** The cut of an actor outside every cohort. */
  method StandaloneCut(g: RouteGraph, actor: Name, needs: map<Name, set<Name>>, families: Families,
                       byActor: map<Name, nat>,
                       loc: Locations, ghost f: CommitmentForest, ghost cohorts: set<set<Name>>, ghost h: Graph)
    returns (cut: Cut)
    requires g.Value().Valid() && ForestPlanned(f, g.actors, families, byActor, loc)
    requires h.actors == g.actors
    requires needs.Keys == g.actors && forall a :: a in g.actors ==> needs[a] == NeedsIn(h, a)
    requires actor in g.actors && forall c :: c in cohorts ==> actor !in c
    ensures CutPlanned(g.Value(), cohorts, h, f, actor, cut)
  {
    var exposed := g.Value().ConsumesOf(actor);
    assert exposed == Exposed(g.Value(), cohorts, actor);
    cut := CutFor(needs[actor], exposed, families, byActor, loc, f, g.actors);
  }

  /** Give every member of a cohort the same cut. */
  method ShareCut(cuts: map<Name, Cut>, cohort: set<Name>, cut: Cut) returns (cuts': map<Name, Cut>)
    ensures cuts'.Keys == cuts.Keys + cohort
    ensures forall a :: a in cuts' ==> cuts'[a] == if a in cohort then cut else cuts[a]
  {
    cuts' := cuts;
    var members := Sorted(Lexicographic, cohort);
    ghost var done: set<Name> := {};
    for i := 0 to |members|
      invariant forall a :: a in done <==> a in members[..i]
      invariant cuts'.Keys == cuts.Keys + done
      invariant forall a :: a in cuts' ==> cuts'[a] == if a in done then cut else cuts[a]
    {
      assert members[i] in members && members[..i + 1] == members[..i] + [members[i]];
      cuts' := cuts'[members[i] := cut];
      done := done + {members[i]};
    }
    assert members[..|members|] == members;
    assert done == cohort;
  }

  ghost predicate CutsPlanned(g: Graph, cohorts: set<set<Name>>, h: Graph, f: CommitmentForest, cuts: map<Name, Cut>) {
    cuts.Keys <= g.actors && forall a :: a in cuts ==> CutPlanned(g, cohorts, h, f, a, cuts[a])
  }

  lemma CutsExtended(g: Graph, cohorts: set<set<Name>>, h: Graph, f: CommitmentForest,
                     cuts: map<Name, Cut>, cuts': map<Name, Cut>, group: set<Name>, cut: Cut)
    requires CutsPlanned(g, cohorts, h, f, cuts) && group <= g.actors
    requires forall m :: m in group ==> CutPlanned(g, cohorts, h, f, m, cut)
    requires cuts'.Keys == cuts.Keys + group
    requires forall a :: a in cuts' ==> cuts'[a] == if a in group then cut else cuts[a]
    ensures CutsPlanned(g, cohorts, h, f, cuts')
  {
    forall a | a in cuts' ensures CutPlanned(g, cohorts, h, f, a, cuts'[a]) {
      assert a in group || CutPlanned(g, cohorts, h, f, a, cuts[a]);
    }
  }

  lemma CutAdded(g: Graph, cohorts: set<set<Name>>, h: Graph, f: CommitmentForest, cuts: map<Name, Cut>, actor: Name,
                 cut: Cut)
    requires CutsPlanned(g, cohorts, h, f, cuts) && actor in g.actors && CutPlanned(g, cohorts, h, f, actor, cut)
    ensures CutsPlanned(g, cohorts, h, f, cuts[actor := cut]) && cuts.Keys <= cuts[actor := cut].Keys
  {
  }

  /** Plan the shared cut of a cohort. */
  method PlanCohort(g: RouteGraph, cohort: set<Name>, cuts: map<Name, Cut>, families: Families, byActor: map<Name, nat>,
                    loc: Locations, needs: map<Name, set<Name>>,
                    ghost f: CommitmentForest, ghost cohorts: set<set<Name>>, ghost h: Graph)
    returns (cuts': map<Name, Cut>)
    requires g.Value().Valid() && ForestPlanned(f, g.actors, families, byActor, loc)
    requires IsCliqued(g.Value(), cohorts, h) && DisjointCohorts(cohorts) && KnownCohorts(g.Value(), cohorts)
    requires needs.Keys == g.actors && forall a :: a in g.actors ==> needs[a] == NeedsIn(h, a)
    requires cohort in cohorts && cohort != {} && CutsPlanned(g.Value(), cohorts, h, f, cuts)
    ensures CutsPlanned(g.Value(), cohorts, h, f, cuts')
    ensures cuts'.Keys == cuts.Keys + cohort
  {
    var cut := CohortCut(g, cohort, needs, families, byActor, loc, f, cohorts, h);
    cuts' := ShareCut(cuts, cohort, cut);
    CutsExtended(g.Value(), cohorts, h, f, cuts, cuts', cohort, cut);
  }

  /** Plan the cut of an actor, or the shared cut of its cohort. */
  method PlanActor(g: RouteGraph, actor: Name, cuts: map<Name, Cut>, families: Families, byActor: map<Name, nat>,
                   loc: Locations, cohorts: Cohorts, cohortByActor: map<Name, nat>, needs: map<Name, set<Name>>,
                   ghost f: CommitmentForest, ghost h: Graph)
    returns (cuts': map<Name, Cut>)
    requires g.Value().Valid() && ForestPlanned(f, g.actors, families, byActor, loc)
    requires CohortsOk(g.actors, cohorts) && IsCohortIndex(cohorts, cohortByActor)
    requires forall a :: a in cohortByActor ==> cohortByActor[a] < |cohorts|
    requires IsCliqued(g.Value(), CohortSet(cohorts), h)
    requires needs.Keys == g.actors && forall a :: a in g.actors ==> needs[a] == NeedsIn(h, a)
    requires actor in g.actors && CutsPlanned(g.Value(), CohortSet(cohorts), h, f, cuts)
    ensures CutsPlanned(g.Value(), CohortSet(cohorts), h, f, cuts')
    ensures actor in cuts' && cuts.Keys <= cuts'.Keys
  {
    CohortsOkAsSet(g.Value(), cohorts);
    if actor !in cohortByActor {
      assert forall c :: c in CohortSet(cohorts) ==> actor !in c;
      var cut := StandaloneCut(g, actor, needs, families, byActor, loc, f, CohortSet(cohorts), h);
      CutAdded(g.Value(), CohortSet(cohorts), h, f, cuts, actor, cut);
      return cuts[actor := cut];
    }
    var cohort := cohorts[cohortByActor[actor]];
    assert cohort in CohortSet(cohorts) && actor in cohort;
    cuts' := PlanCohort(g, cohort, cuts, families, byActor, loc, needs, f, CohortSet(cohorts), h);
  }

  /** The cuts of all actors, in actor order; a cohort's first member settles its cohort. */
  method PlanCuts(g: RouteGraph, families: Families, byActor: map<Name, nat>, loc: Locations, cohorts: Cohorts,
                  cohortByActor: map<Name, nat>, needs: map<Name, set<Name>>,
                  ghost f: CommitmentForest, ghost h: Graph)
    returns (cuts: map<Name, Cut>)
    requires g.Value().Valid() && ForestPlanned(f, g.actors, families, byActor, loc)
    requires CohortsOk(g.actors, cohorts) && IsCohortIndex(cohorts, cohortByActor)
    requires forall a :: a in cohortByActor ==> cohortByActor[a] < |cohorts|
    requires IsCliqued(g.Value(), CohortSet(cohorts), h)
    requires needs.Keys == g.actors && forall a :: a in g.actors ==> needs[a] == NeedsIn(h, a)
    ensures cuts.Keys == g.actors && CutsPlanned(g.Value(), CohortSet(cohorts), h, f, cuts)
  {
    cuts := map[];
    var order := Sorted(Lexicographic, g.actors);
    for i := 0 to |order|
      invariant CutsPlanned(g.Value(), CohortSet(cohorts), h, f, cuts)
      invariant HasCuts(order, i, cuts)
    {
      var actor := order[i];
      assert actor in order;
      if actor in cuts {
        OneMoreHasCut(order, i, cuts, cuts);
        continue;
      }
      ghost var before := cuts;
      cuts := PlanActor(g, actor, cuts, families, byActor, loc, cohorts, cohortByActor, needs, f, h);
      OneMoreHasCut(order, i, before, cuts);
    }
    AllHaveCuts(g.actors, order, cuts);
  }

  ghost predicate HasCuts(order: seq<Name>, n: nat, cuts: map<Name, Cut>)
    requires n <= |order|
  {
    forall i :: 0 <= i < n ==> order[i] in cuts
  }

  lemma OneMoreHasCut(order: seq<Name>, n: nat, before: map<Name, Cut>, cuts: map<Name, Cut>)
    requires n < |order| && HasCuts(order, n, before) && before.Keys <= cuts.Keys && order[n] in cuts
    ensures HasCuts(order, n + 1, cuts)
  {
  }

  lemma AllHaveCuts(actors: set<Name>, order: seq<Name>, cuts: map<Name, Cut>)
    requires (forall a :: a in order <==> a in actors) && HasCuts(order, |order|, cuts) && cuts.Keys <= actors
    ensures cuts.Keys == actors
  {
  }

  /** Plan the forest and every actor's cut. */
  method PlanCommitments(g: RouteGraph, constraints: CommitmentConstraints)
    returns (r: Result<CommitmentPlan, ConstraintError>)
    requires g.Value().Valid()
    ensures r.Ok? <==> FamiliesOk(g.actors, constraints.families) && CohortsOk(g.actors, constraints.cohorts)
    ensures r.Ok? ==>
      && KnownCohorts(g.Value(), CohortSet(constraints.cohorts))
      && IsPlan(g.Value(), FamilySet(constraints.families), CohortSet(constraints.cohorts), r.value)
    ensures r.Err? ==>
      if FamiliesOk(g.actors, constraints.families) then IsFirstCohortError(g.actors, constraints.cohorts, r.error)
      else IsFirstFamilyError(g.actors, constraints.families, r.error)
  {
    ghost var v := g.Value();
    var families := constraints.families;
    var indexed := ValidateFamilies(g.actors, families);
    if indexed.Err? {
      return Err(indexed.error);
    }
    var cohortsIndexed := ValidateCohorts(g.actors, constraints.cohorts);
    if cohortsIndexed.Err? {
      return Err(cohortsIndexed.error);
    }
    var forest, loc := BuildCommitmentForest(g.actors, families, indexed.value);
    var needsGraph := CliqueGraph(g, constraints.cohorts);
    var needs := Needs(needsGraph);
    CohortsOkAsSet(v, constraints.cohorts);
    ghost var h := Cliqued(v, CohortSet(constraints.cohorts));
    forall a | a in g.actors ensures needs[a] == NeedsIn(h, a) {
      NeedsAgree(needsGraph.Value(), h, a, needs[a]);
    }
    var cuts := PlanCuts(g, families, indexed.value, loc, constraints.cohorts, cohortsIndexed.value, needs, forest, h);
    ghost var plan := CommitmentPlan(forest, cuts);
    forall a | a in v.actors ensures HasPlannedCut(v, CohortSet(constraints.cohorts), plan, a) {
      assert CutPlanned(v, CohortSet(constraints.cohorts), h, forest, a, cuts[a]);
    }
    return Ok(CommitmentPlan(forest, cuts));
  }

  datatype CutTransitionError =
    | UnknownSourceActor(actor: Name)
    | UnknownTargetActor(actor: Name)
    | IncompatibleCuts(source: Name, target: Name)

  /** The transition between the cuts of two actors. */
  method PlannedTransition(plan: CommitmentPlan, source: Name, target: Name)
    returns (r: Result<CutTransition, CutTransitionError>, ghost steps: CutSteps)
    requires forall a :: a in plan.cuts ==> plan.forest.ValidCut(plan.cuts[a])
    ensures r == Err(UnknownSourceActor(source)) <==> source !in plan.cuts
    ensures r == Err(UnknownTargetActor(target)) <==> source in plan.cuts && target !in plan.cuts
    ensures source in plan.cuts && target in plan.cuts ==>
      if Derives(plan.forest, plan.cuts[source], plan.cuts[target])
      then r.Ok? && IsSteps(plan.cuts[source], plan.cuts[target], steps)
        && AreNodesAt(plan.forest, steps.retained, r.value.retained)
        && AreNodesAt(plan.forest, steps.toOpen, r.value.toOpen)
        && AreNodesAt(plan.forest, steps.toPack, r.value.toPack)
      else r == Err(IncompatibleCuts(source, target))
  {
    steps := CutSteps([], [], []);
    if source !in plan.cuts {
      return Err(UnknownSourceActor(source)), steps;
    }
    if target !in plan.cuts {
      return Err(UnknownTargetActor(target)), steps;
    }
    var transition;
    transition, steps := Transition(plan.forest, plan.cuts[source], plan.cuts[target]);
    if transition.None? {
      return Err(IncompatibleCuts(source, target)), steps;
    }
    return Ok(transition.value), steps;
  }
}
