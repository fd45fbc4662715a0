/** Route plans: families and cohorts inferred from domains, and their commitment plan. */
module RoutePlans {
  import opened Wrappers
  import opened Ordering
  import opened Forests
  import F = Families
  import opened ForestBuilding
  import opened RouteGraphs
  import opened Components
  import opened Planning
  import opened Selectors

  datatype FamilyPlan = FamilyPlan(domain: Name, rep: Name, members: seq<Name>, gates: seq<Name>, table: seq<Name>)

  datatype RoutePlan = RoutePlan(families: seq<FamilyPlan>, commitments: CommitmentPlan)

  datatype RoutePlanError = Constraint(constraint: F.ConstraintError) | Selector(selector: SelectorError)

  /** The listed actors that are in the set, in listed order. */
  function OrderedMembers(order: seq<Name>, members: set<Name>): (r: seq<Name>)
    ensures forall a :: a in r <==> a in order && a in members
    ensures Distinct(order) ==> Distinct(r)
  {
    if order == [] then []
    else
      var rest := OrderedMembers(order[1..], members);
      if order[0] in members then [order[0]] + rest else rest
  }

  // ---------- What a component contributes ----------

  /** The family of a component: its table is the selectors' prefix followed by the other
      non-gate members, or, with no selector, the non-gate members if that is worthwhile. */
  ghost predicate IsFamilyOf(domain: Name, order: seq<Name>, c: Component, prefix: Option<seq<Name>>,
                             family: Option<FamilyPlan>) {
    match prefix
    case Some(variants) =>
      && family.Some? && DescribesComponent(domain, order, c, family.value)
      && family.value.table == variants + OrderedMembers(order, c.members - c.gates - Elements(variants))
    case None =>
      var table := OrderedMembers(order, c.members - c.gates);
      if |c.members| < 3 || |table| < 2 then family.None?
      else family.Some? && DescribesComponent(domain, order, c, family.value) && family.value.table == table
  }

  ghost predicate DescribesComponent(domain: Name, order: seq<Name>, c: Component, family: FamilyPlan) {
    && family.domain == domain
    && family.members == OrderedMembers(order, c.members)
    && family.gates == OrderedMembers(order, c.gates)
    && (if family.gates != [] then family.rep == family.gates[0]
        else family.members != [] && family.rep == family.members[0])
  }

  /** Filtering in two steps is filtering once. */
  lemma {:induction false} FilterMembers(order: seq<Name>, a: set<Name>, b: set<Name>)
    ensures OrderedMembers(OrderedMembers(order, a), b) == OrderedMembers(order, a * b)
  {
    if order != [] {
      var rest := OrderedMembers(order[1..], a);
      FilterMembers(order[1..], a, b);
      if order[0] in a {
        assert OrderedMembers(order, a)[1..] == rest;
      }
    }
  }

  lemma {:induction false} FilterDependsOnMembers(order: seq<Name>, a: set<Name>, b: set<Name>)
    requires forall x :: x in order ==> (x in a <==> x in b)
    ensures OrderedMembers(order, a) == OrderedMembers(order, b)
  {
    if order != [] {
      FilterDependsOnMembers(order[1..], a, b);
    }
  }

  method FamilyOfComponent(domain: Name, order: seq<Name>, c: Component, prefix: Option<seq<Name>>)
    returns (family: Option<FamilyPlan>)
    requires c.members != {} && c.members <= Elements(order) && c.gates <= c.members
    ensures IsFamilyOf(domain, order, c, prefix, family)
  {
    var members := OrderedMembers(order, c.members);
    var gates := OrderedMembers(order, c.gates);
    var anyone :| anyone in c.members;
    assert anyone in members;
    var rep := if gates != [] then gates[0] else members[0];
    var gateSet := Elements(gates);
    assert gateSet == c.gates;
    var table;
    match prefix {
      case Some(variants) =>
        FilterMembers(order, c.members, Elements(order) - gateSet - Elements(variants));
        table := variants + OrderedMembers(members, Elements(order) - gateSet - Elements(variants));
        FilterDependsOnMembers(order, c.members * (Elements(order) - gateSet - Elements(variants)), c.members - c.gates - Elements(variants));
      case None =>
        if |c.members| < 3 {
          return None;
        }
        FilterMembers(order, c.members, Elements(order) - gateSet);
        table := OrderedMembers(members, Elements(order) - gateSet);
        FilterDependsOnMembers(order, c.members * (Elements(order) - gateSet), c.members - c.gates);
        if |table| < 2 {
          return None;
        }
    }
    return Some(FamilyPlan(domain, rep, members, gates, table));
  }

  // ---------- What a plan's families and cohorts are ----------

  function Tables(families: seq<FamilyPlan>): F.Families {
    seq(|families|, i requires 0 <= i < |families| => families[i].table)
  }

  /** Duplicate-free domains with no actor in common. */
  ghost predicate DomainsOk(domains: Domains) {
    && (forall d :: d in domains ==> Distinct(domains[d]))
    && (forall d, e, a :: d in domains && e in domains && a in domains[d] && a in domains[e] ==> d == e)
  }

  ghost predicate DomainsKnown(g: Graph, domains: Domains) {
    forall d :: d in domains ==> Elements(domains[d]) <= g.actors
  }

  /** A component of one of the domains. */
  ghost predicate IsDomainComponent(g: Graph, domains: Domains, d: Name, c: Component) {
    d in domains && IsClass(Weak(g, Elements(domains[d])), c.members) && AreGates(g, c)
  }

  /** The family a domain component is planned with, if any. */
  ghost predicate IsFamilyFor(domains: Domains, selectors: seq<SelectorRequirement>, d: Name, c: Component,
                              family: Option<FamilyPlan>)
    requires d in domains
  {
    exists prefix :: IsPrefix(d, c.members, selectors, prefix) && IsFamilyOf(d, domains[d], c, prefix, family)
  }

  /** Some family is indexed by the selector: its table starts with the variants. */
  ghost predicate Served(families: seq<FamilyPlan>, s: SelectorRequirement) {
    exists k :: 0 <= k < |families| && families[k].domain == s.domain && s.source in families[k].members
      && s.variants <= families[k].table
  }

  /** A component has one family at most. */
  lemma FamilyIsUnique(domains: Domains, selectors: seq<SelectorRequirement>, d: Name, c: Component,
                       x: Option<FamilyPlan>, y: Option<FamilyPlan>)
    requires d in domains && IsFamilyFor(domains, selectors, d, c, x) && IsFamilyFor(domains, selectors, d, c, y)
    ensures x == y
  {
    var p :| IsPrefix(d, c.members, selectors, p) && IsFamilyOf(d, domains[d], c, p, x);
    var q :| IsPrefix(d, c.members, selectors, q) && IsFamilyOf(d, domains[d], c, q, y);
    assert p == q;
  }

  // ---------- Collecting families and cohorts ----------

  /** Components follow domain order, and inside a domain the order of their least members. */
  ghost predicate ComponentBefore(a: (Name, Component), b: (Name, Component)) {
    || Before(Lexicographic, a.0, b.0)
    || (a.0 == b.0 && a.1.members != {} && b.1.members != {}
        && Before(Lexicographic, First(Lexicographic, a.1.members), First(Lexicographic, b.1.members)))
  }

  ghost predicate InComponentOrder(done: seq<(Name, Component)>) {
    forall i, j :: 0 <= i < j < |done| ==> ComponentBefore(done[i], done[j])
  }

  /** The components of all domains, in order. */
  ghost predicate AreDomainComponents(g: Graph, domains: Domains, done: seq<(Name, Component)>) {
    && InComponentOrder(done)
    && forall d: Name, c: Component :: (d, c) in done <==> IsDomainComponent(g, domains, d, c)
  }

  /** Every component of several actors is a cohort, in order. */
  ghost function CohortsFrom(done: seq<(Name, Component)>): F.Cohorts {
    if done == [] then []
    else
      var last := done[|done| - 1].1.members;
      CohortsFrom(done[..|done| - 1]) + (if 1 < |last| then [last] else [])
  }

  ghost predicate CohortsOver(done: seq<(Name, Component)>, cohorts: F.Cohorts) {
    forall x :: x in cohorts <==> exists d: Name, c: Component :: (d, c) in done && c.members == x && 1 < |x|
  }

  ghost predicate FamiliesOver(domains: Domains, selectors: seq<SelectorRequirement>, done: seq<(Name, Component)>,
                               families: seq<FamilyPlan>) {
    && (forall d: Name, c: Component :: (d, c) in done ==> d in domains)
    && forall f :: f in families <==> exists d: Name, c: Component :: (d, c) in done && IsFamilyFor(domains, selectors, d, c, Some(f))
  }

  ghost predicate InComponent(done: seq<(Name, Component)>, a: Name) {
    exists d: Name, c: Component :: (d, c) in done && a in c.members
  }

  /** Families and cohorts are acceptable, and stay inside the components done. */
  ghost predicate Acceptable(actors: set<Name>, done: seq<(Name, Component)>, families: seq<FamilyPlan>,
                             cohorts: F.Cohorts) {
    && F.FamiliesOk(actors, Tables(families)) && F.CohortsOk(actors, cohorts)
    && (forall k, a :: 0 <= k < |families| && a in families[k].table ==> InComponent(done, a))
    && (forall k, a :: 0 <= k < |cohorts| && a in cohorts[k] ==> InComponent(done, a))
  }

  lemma CohortOneMore(done: seq<(Name, Component)>, cohorts: F.Cohorts, d: Name, c: Component)
    requires CohortsOver(done, cohorts)
    ensures CohortsOver(done + [(d, c)], if 1 < |c.members| then cohorts + [c.members] else cohorts)
  {
    var done' := done + [(d, c)];
    var cohorts' := if 1 < |c.members| then cohorts + [c.members] else cohorts;
    assert (d, c) in done';
    forall x ensures x in cohorts' <==> exists e: Name, k: Component :: (e, k) in done' && k.members == x && 1 < |x| {
      if x in cohorts {
        var e: Name, k: Component :| (e, k) in done && k.members == x && 1 < |x|;
        assert (e, k) in done';
      }
      assert x in cohorts' <==> x in cohorts || (x == c.members && 1 < |x|);
    }
  }

  lemma {:induction false} CohortsFromOver(done: seq<(Name, Component)>)
    ensures CohortsOver(done, CohortsFrom(done))
  {
    if done != [] {
      var last := |done| - 1;
      CohortsFromOver(done[..last]);
      CohortOneMore(done[..last], CohortsFrom(done[..last]), done[last].0, done[last].1);
      assert done == done[..last] + [(done[last].0, done[last].1)];
    }
  }

  lemma CohortsFromOneMore(done: seq<(Name, Component)>, d: Name, c: Component)
    ensures CohortsFrom(done + [(d, c)]) == CohortsFrom(done) + (if 1 < |c.members| then [c.members] else [])
  {
    assert (done + [(d, c)])[..|done|] == done;
  }

  lemma FamilyOneMore(domains: Domains, selectors: seq<SelectorRequirement>, done: seq<(Name, Component)>,
                      families: seq<FamilyPlan>, d: Name, c: Component, family: Option<FamilyPlan>)
    requires FamiliesOver(domains, selectors, done, families) && d in domains
    requires IsFamilyFor(domains, selectors, d, c, family)
    ensures FamiliesOver(domains, selectors, done + [(d, c)],
              if family.Some? then families + [family.value] else families)
  {
    var done' := done + [(d, c)];
    var families' := if family.Some? then families + [family.value] else families;
    assert (d, c) in done';
    forall f ensures f in families' <==> exists e: Name, k: Component :: (e, k) in done' && IsFamilyFor(domains, selectors, e, k, Some(f)) {
      if f in families {
        var e: Name, k: Component :| (e, k) in done && IsFamilyFor(domains, selectors, e, k, Some(f));
        assert (e, k) in done';
      }
      if IsFamilyFor(domains, selectors, d, c, Some(f)) {
        FamilyIsUnique(domains, selectors, d, c, Some(f), family);
      }
      assert f in families' <==> f in families || family == Some(f);
    }
  }

  /** A family's table consists of distinct members of its component. */
  lemma TableIsInside(order: seq<Name>, d: Name, c: Component, prefix: Option<seq<Name>>, family: FamilyPlan)
    requires IsFamilyOf(d, order, c, prefix, Some(family)) && Distinct(order)
    requires prefix.Some? ==> Distinct(prefix.value) && Within(c.members, prefix.value) && prefix.value != []
    ensures family.table != [] && Distinct(family.table) && forall a :: a in family.table ==> a in c.members
  {
    if prefix.Some? {
      var rest := OrderedMembers(order, c.members - c.gates - Elements(prefix.value));
      assert forall a :: a in rest ==> a !in Elements(prefix.value);
      assert forall i :: 0 <= i < |prefix.value| ==> prefix.value[i] in prefix.value;
      assert forall j :: 0 <= j < |rest| ==> rest[j] in rest;
    }
  }

  lemma AcceptableOneMore(actors: set<Name>, done: seq<(Name, Component)>, families: seq<FamilyPlan>,
                          cohorts: F.Cohorts,
                          d: Name, c: Component, family: Option<FamilyPlan>)
    requires Acceptable(actors, done, families, cohorts) && c.members <= actors && c.members != {}
    requires forall a :: a in c.members ==> !InComponent(done, a)
    requires family.Some? ==>
      family.value.table != [] && Distinct(family.value.table) && forall a :: a in family.value.table ==> a in c.members
    ensures Acceptable(actors, done + [(d, c)], if family.Some? then families + [family.value] else families,
              if 1 < |c.members| then cohorts + [c.members] else cohorts)
  {
    var done' := done + [(d, c)];
    assert (d, c) in done';
    forall a | InComponent(done, a) || a in c.members ensures InComponent(done', a) {
      if InComponent(done, a) {
        var e: Name, k: Component :| (e, k) in done && a in k.members;
        assert (e, k) in done';
      }
    }
    TablesOneMore(actors, done, families, c, family);
    var cohorts' := if 1 < |c.members| then cohorts + [c.members] else cohorts;
    forall k, l | 0 <= k < l < |cohorts'| ensures cohorts'[k] !! cohorts'[l] {
      forall a | a in cohorts'[k] ensures a !in cohorts'[l] {
      }
    }
  }

  lemma TablesOneMore(actors: set<Name>, done: seq<(Name, Component)>, families: seq<FamilyPlan>,
                      c: Component, family: Option<FamilyPlan>)
    requires F.FamiliesOk(actors, Tables(families)) && c.members <= actors
    requires forall k, a :: 0 <= k < |families| && a in families[k].table ==> InComponent(done, a)
    requires forall a :: a in c.members ==> !InComponent(done, a)
    requires family.Some? ==>
      family.value.table != [] && Distinct(family.value.table) && forall a :: a in family.value.table ==> a in c.members
    ensures F.FamiliesOk(actors, Tables(if family.Some? then families + [family.value] else families))
  {
    if family.Some? {
      var tables, tables' := Tables(families), Tables(families + [family.value]);
      assert tables' == tables + [family.value.table];
      assert forall k :: 0 <= k < |families| ==> tables[k] == families[k].table;
    }
  }

  /** Families follow domain order, and inside a domain the order of their components' least members. */
  ghost predicate FamilyBefore(f: FamilyPlan, h: FamilyPlan) {
    || Before(Lexicographic, f.domain, h.domain)
    || (f.domain == h.domain && Elements(f.members) != {} && Elements(h.members) != {}
        && Before(Lexicographic, First(Lexicographic, Elements(f.members)), First(Lexicographic, Elements(h.members))))
  }

  ghost predicate InPlanOrder(families: seq<FamilyPlan>) {
    forall i, j :: 0 <= i < j < |families| ==> FamilyBefore(families[i], families[j])
  }

  // ---------- Planning ----------

  /** The components done are domain components whose selectors agree. */
  ghost predicate DoneAgree(g: Graph, domains: Domains, selectors: seq<SelectorRequirement>,
                            done: seq<(Name, Component)>) {
    forall d: Name, c: Component :: (d, c) in done ==> IsDomainComponent(g, domains, d, c) && Agree(d, c.members, selectors)
  }

  lemma DoneAgreeOneMore(g: Graph, domains: Domains, selectors: seq<SelectorRequirement>, done: seq<(Name, Component)>,
                         d: Name, c: Component)
    requires DoneAgree(g, domains, selectors, done) && IsDomainComponent(g, domains, d, c) && Agree(d, c.members, selectors)
    ensures DoneAgree(g, domains, selectors, done + [(d, c)])
  {
  }

  /** What holds once the components `done` have contributed. */
  ghost predicate Collected(g: Graph, domains: Domains, selectors: seq<SelectorRequirement>,
                            done: seq<(Name, Component)>,
                            families: seq<FamilyPlan>, cohorts: F.Cohorts) {
    && DoneAgree(g, domains, selectors, done)
    && InComponentOrder(done)
    && cohorts == CohortsFrom(done)
    && FamiliesOver(domains, selectors, done, families)
    && InPlanOrder(families)
    && (DomainsOk(domains) ==> Acceptable(g.actors, done, families, cohorts))
  }

  /** Components done before component `j` of domain `d`: earlier domains, and this domain's earlier components. */
  ghost predicate DoneBefore(done: seq<(Name, Component)>, d: Name, cs: seq<Component>, j: nat)
    requires j <= |cs|
  {
    forall e: Name, k: Component :: (e, k) in done ==> Before(Lexicographic, e, d) || (e == d && k in cs[..j])
  }

  lemma DoneBeforeOneMore(done: seq<(Name, Component)>, d: Name, cs: seq<Component>, j: nat)
    requires j < |cs| && DoneBefore(done, d, cs, j)
    ensures DoneBefore(done + [(d, cs[j])], d, cs, j + 1)
  {
    assert cs[..j + 1] == cs[..j] + [cs[j]];
  }

  /** The members of every component done belong to its domain. */
  ghost predicate InsideDomains(domains: Domains, done: seq<(Name, Component)>) {
    forall e: Name, k: Component :: (e, k) in done ==> e in domains && k.members <= Elements(domains[e])
  }

  /** Component lists as far as their order and disjointness go. */
  ghost predicate Listed(domain: set<Name>, cs: seq<Component>) {
    && (forall i :: 0 <= i < |cs| ==> cs[i].members != {} && cs[i].members <= domain)
    && (forall i, j :: 0 <= i < j < |cs| ==> cs[i].members !! cs[j].members)
    && InLeastMemberOrder(cs)
  }

  /** A domain's component shares no actor with the components done before it. */
  lemma ComponentIsNew(domains: Domains, done: seq<(Name, Component)>, d: Name, cs: seq<Component>, j: nat)
    requires DomainsOk(domains) && d in domains && j < |cs|
    requires InsideDomains(domains, done) && Listed(Elements(domains[d]), cs) && DoneBefore(done, d, cs, j)
    ensures forall a :: a in cs[j].members ==> !InComponent(done, a)
  {
    forall e: Name, k: Component, a | (e, k) in done && a in cs[j].members ensures a !in k.members {
      assert a in Elements(domains[d]);
      if e == d {
        LexIrreflexive(d);
        var i :| 0 <= i < j && cs[..j][i] == k;
        assert cs[i].members !! cs[j].members;
      } else {
        assert k.members <= Elements(domains[e]);
      }
    }
  }

  /** A domain's component comes after the components done before it. */
  lemma ComponentComesLast(g: Graph, domains: Domains, done: seq<(Name, Component)>, d: Name, cs: seq<Component>,
                           j: nat)
    requires d in domains && j < |cs| && Listed(Elements(domains[d]), cs) && DoneBefore(done, d, cs, j)
    requires InComponentOrder(done)
    ensures InComponentOrder(done + [(d, cs[j])])
  {
    forall i | 0 <= i < |done| ensures ComponentBefore(done[i], (d, cs[j])) {
      var (e, k) := done[i];
      assert (e, k) in done;
      if !Before(Lexicographic, e, d) {
        var h :| 0 <= h < j && cs[..j][h] == k;
        assert Before(Lexicographic, First(Lexicographic, cs[h].members), First(Lexicographic, cs[j].members));
      }
    }
  }

  /** A new family comes after those of earlier domains and of this domain's earlier components. */
  lemma FamilyComesLast(domains: Domains, selectors: seq<SelectorRequirement>, done: seq<(Name, Component)>,
                        families: seq<FamilyPlan>, d: Name, cs: seq<Component>, j: nat, family: FamilyPlan)
    requires d in domains && j < |cs|
    requires InsideDomains(domains, done) && Listed(Elements(domains[d]), cs) && DoneBefore(done, d, cs, j)
    requires FamiliesOver(domains, selectors, done, families) && InPlanOrder(families)
    requires IsFamilyFor(domains, selectors, d, cs[j], Some(family))
    ensures InPlanOrder(families + [family])
  {
    MembersAreListed(domains, selectors, d, cs[j], family);
    forall i | 0 <= i < |families| ensures FamilyBefore(families[i], family) {
      EarlierFamilyIsBefore(domains, selectors, done, families, d, cs, j, family, i);
    }
  }

  lemma EarlierFamilyIsBefore(domains: Domains, selectors: seq<SelectorRequirement>, done: seq<(Name, Component)>,
                              families: seq<FamilyPlan>, d: Name, cs: seq<Component>, j: nat, family: FamilyPlan, i: nat)
    requires d in domains && j < |cs| && i < |families|
    requires InsideDomains(domains, done) && Listed(Elements(domains[d]), cs) && DoneBefore(done, d, cs, j)
    requires FamiliesOver(domains, selectors, done, families)
    requires family.domain == d && Elements(family.members) == cs[j].members
    ensures FamilyBefore(families[i], family)
  {
    var f := families[i];
    assert f in families;
    var e: Name, k: Component :| (e, k) in done && IsFamilyFor(domains, selectors, e, k, Some(f));
    MembersAreListed(domains, selectors, e, k, f);
    if e == d {
      LexIrreflexive(d);
      var h :| 0 <= h < j && cs[..j][h] == k;
      assert Before(Lexicographic, First(Lexicographic, cs[h].members), First(Lexicographic, cs[j].members));
    }
  }

  lemma MembersAreListed(domains: Domains, selectors: seq<SelectorRequirement>, d: Name, c: Component,
                         family: FamilyPlan)
    requires d in domains && IsFamilyFor(domains, selectors, d, c, Some(family))
    ensures family.domain == d
    ensures c.members <= Elements(domains[d]) ==> Elements(family.members) == c.members
  {
    var prefix :| IsPrefix(d, c.members, selectors, prefix) && IsFamilyOf(d, domains[d], c, prefix, Some(family));
    assert family.members == OrderedMembers(domains[d], c.members);
  }

  lemma CollectedIsInside(g: Graph, domains: Domains, selectors: seq<SelectorRequirement>, done: seq<(Name, Component)>,
                          families: seq<FamilyPlan>, cohorts: F.Cohorts)
    requires Collected(g, domains, selectors, done, families, cohorts)
    ensures InsideDomains(domains, done)
  {
    forall e: Name, k: Component | (e, k) in done ensures e in domains && k.members <= Elements(domains[e]) {
      assert IsDomainComponent(g, domains, e, k);
    }
  }

  lemma ComponentsAreListed(g: Graph, domain: set<Name>, cs: seq<Component>)
    requires AreComponents(g, domain, cs)
    ensures Listed(domain, cs)
  {
  }

  /** Adding one component's contribution keeps the collection right. */
  lemma CollectedOneMore(g: Graph, domains: Domains, selectors: seq<SelectorRequirement>, done: seq<(Name, Component)>,
                         families: seq<FamilyPlan>, cohorts: F.Cohorts, d: Name, cs: seq<Component>, j: nat,
                         prefix: Option<seq<Name>>, family: Option<FamilyPlan>)
    requires DomainsKnown(g, domains) && SelectorsOk(domains, selectors)
    requires d in domains && j < |cs| && AreComponents(g, Elements(domains[d]), cs) && DoneBefore(done, d, cs, j)
    requires Collected(g, domains, selectors, done, families, cohorts)
    requires Agree(d, cs[j].members, selectors) && IsPrefix(d, cs[j].members, selectors, prefix)
    requires IsFamilyOf(d, domains[d], cs[j], prefix, family)
    ensures DoneBefore(done + [(d, cs[j])], d, cs, j + 1)
    ensures Collected(g, domains, selectors, done + [(d, cs[j])],
              if family.Some? then families + [family.value] else families,
              if 1 < |cs[j].members| then cohorts + [cs[j].members] else cohorts)
  {
    var c := cs[j];
    DoneBeforeOneMore(done, d, cs, j);
    assert IsDomainComponent(g, domains, d, c);
    DoneAgreeOneMore(g, domains, selectors, done, d, c);
    CollectedIsInside(g, domains, selectors, done, families, cohorts);
    ComponentsAreListed(g, Elements(domains[d]), cs);
    ComponentComesLast(g, domains, done, d, cs, j);
    CohortsFromOneMore(done, d, c);
    FamilyOneMore(domains, selectors, done, families, d, c, family);
    if family.Some? {
      FamilyComesLast(domains, selectors, done, families, d, cs, j, family.value);
    }
    if DomainsOk(domains) {
      NewComponentAcceptable(g.actors, domains, selectors, done, families, cohorts, d, cs, j, prefix, family);
    }
  }

  lemma NewComponentAcceptable(actors: set<Name>, domains: Domains, selectors: seq<SelectorRequirement>,
                               done: seq<(Name, Component)>,
                               families: seq<FamilyPlan>, cohorts: F.Cohorts, d: Name, cs: seq<Component>, j: nat,
                               prefix: Option<seq<Name>>, family: Option<FamilyPlan>)
    requires DomainsOk(domains) && SelectorsOk(domains, selectors) && Acceptable(actors, done, families, cohorts)
    requires d in domains && Elements(domains[d]) <= actors
    requires j < |cs| && Listed(Elements(domains[d]), cs) && DoneBefore(done, d, cs, j) && InsideDomains(domains, done)
    requires Agree(d, cs[j].members, selectors) && IsPrefix(d, cs[j].members, selectors, prefix)
    requires IsFamilyOf(d, domains[d], cs[j], prefix, family)
    ensures Acceptable(actors, done + [(d, cs[j])],
              if family.Some? then families + [family.value] else families,
              if 1 < |cs[j].members| then cohorts + [cs[j].members] else cohorts)
  {
    ComponentIsNew(domains, done, d, cs, j);
    if family.Some? {
      TableIsInside(domains[d], d, cs[j], prefix, family.value);
    }
    AcceptableOneMore(actors, done, families, cohorts, d, cs[j], family);
  }

  /** All components of earlier domains are done. */
  ghost predicate EarlierDone(g: Graph, domains: Domains, d: Name, done: seq<(Name, Component)>) {
    forall e, k :: IsDomainComponent(g, domains, e, k) && Before(Lexicographic, e, d) ==> (e, k) in done
  }

  /** When the selectors of component `j` disagree after everything before it was done, it is the first to disagree. */
  lemma FirstDisagrees(g: Graph, domains: Domains, selectors: seq<SelectorRequirement>, done: seq<(Name, Component)>,
                       done': seq<(Name, Component)>, d: Name, cs: seq<Component>, j: nat, e: SelectorError)
    requires d in domains && j < |cs| && AreComponents(g, Elements(domains[d]), cs)
    requires EarlierDone(g, domains, d, done) && Extends(d, cs, j, done, done')
    requires DoneAgree(g, domains, selectors, done')
    requires !Agree(d, cs[j].members, selectors) && IsDisagreement(d, cs[j].members, selectors, e)
    ensures Disagrees(g, domains, selectors, d, e)
  {
    var c := cs[j];
    forall b, k | IsDomainComponent(g, domains, b, k) && ComponentBefore((b, k), (d, c)) ensures Agree(b, k.members, selectors) {
      if !Before(Lexicographic, b, d) {
        ComponentIsListed(g, Elements(domains[d]), cs, k);
        var i :| 0 <= i < |cs| && cs[i] == k;
        EarlierIsListedEarlier(cs, i, j);
      }
      assert (b, k) in done';
    }
    assert IsFirstDisagreement(g, domains, selectors, d, c, e);
  }

  lemma EarlierIsListedEarlier(cs: seq<Component>, i: nat, j: nat)
    requires InLeastMemberOrder(cs) && i < |cs| && j < |cs| && cs[i].members != {} && cs[j].members != {}
    requires Before(Lexicographic, First(Lexicographic, cs[i].members), First(Lexicographic, cs[j].members))
    ensures i < j
  {
    OrderIsStrictTotal(Lexicographic);
  }

  /** Collect the families and cohorts of one domain. */
  method PlanDomain(g: RouteGraph, domains: Domains, selectors: seq<SelectorRequirement>, d: Name,
                    families: seq<FamilyPlan>, cohorts: F.Cohorts, ghost done: seq<(Name, Component)>)
    returns (fault: Option<SelectorError>, families': seq<FamilyPlan>, cohorts': F.Cohorts, ghost done': seq<(Name, Component)>)
    requires g.Value().Valid() && DomainsKnown(g.Value(), domains) && SelectorsOk(domains, selectors) && d in domains
    requires Collected(g.Value(), domains, selectors, done, families, cohorts)
    requires forall e: Name, k: Component :: (e, k) in done ==> Before(Lexicographic, e, d)
    requires EarlierDone(g.Value(), domains, d, done)
    ensures fault.None? ==>
      Collected(g.Value(), domains, selectors, done', families', cohorts') && DomainDone(g.Value(), domains, d, done, done')
    ensures fault.Some? ==> Disagrees(g.Value(), domains, selectors, d, fault.value)
  {
    fault, families', cohorts', done' := None, families, cohorts, done;
    var cs := FindComponents(g, Elements(domains[d]));
    for j := 0 to |cs|
      invariant Collected(g.Value(), domains, selectors, done', families', cohorts')
      invariant DoneBefore(done', d, cs, j)
      invariant Extends(d, cs, j, done, done')
    {
      var c := cs[j];
      var prefix := SelectorPrefixForComponent(d, c.members, selectors);
      if prefix.Err? {
        FirstDisagrees(g.Value(), domains, selectors, done, done', d, cs, j, prefix.error);
        return Some(prefix.error), families', cohorts', done';
      }
      ComponentMembersListed(g.Value(), Elements(domains[d]), c);
      var family := FamilyOfComponent(d, domains[d], c, prefix.value);
      CollectedOneMore(g.Value(), domains, selectors, done', families', cohorts', d, cs, j, prefix.value, family);
      if 1 < |c.members| {
        cohorts' := cohorts' + [c.members];
      }
      if family.Some? {
        families' := families' + [family.value];
      }
      ExtendsOneMore(d, cs, j, done, done');
      done' := done' + [(d, c)];
    }
    forall c | IsDomainComponent(g.Value(), domains, d, c) ensures (d, c) in done' {
      ComponentIsListed(g.Value(), Elements(domains[d]), cs, c);
    }
  }

  /** The list of components done grew by the first `j` components of the domain. */
  ghost predicate Extends(d: Name, cs: seq<Component>, j: nat, done: seq<(Name, Component)>,
                          done': seq<(Name, Component)>)
    requires j <= |cs|
  {
    && (forall x :: x in done ==> x in done')
    && (forall x :: x in done' ==> x in done || x.0 == d)
    && (forall i :: 0 <= i < j ==> (d, cs[i]) in done')
  }

  lemma ExtendsOneMore(d: Name, cs: seq<Component>, j: nat, done: seq<(Name, Component)>, done': seq<(Name, Component)>)
    requires j < |cs| && Extends(d, cs, j, done, done')
    ensures Extends(d, cs, j + 1, done, done' + [(d, cs[j])])
  {
  }

  lemma ComponentMembersListed(g: Graph, domain: set<Name>, c: Component)
    requires IsClass(Weak(g, domain), c.members) && AreGates(g, c)
    ensures c.members != {} && c.members <= domain && c.gates <= c.members
  {
  }

  /** All of the domain's components are done, and nothing of other domains was added or lost. */
  ghost predicate DomainDone(g: Graph, domains: Domains, d: Name, done: seq<(Name, Component)>,
                             done': seq<(Name, Component)>) {
    && (forall x :: x in done ==> x in done')
    && (forall x :: x in done' ==> x in done || x.0 == d)
    && (forall c :: IsDomainComponent(g, domains, d, c) ==> (d, c) in done')
  }

  /** The selectors of the component disagree as said, and those of every component before it agree. */
  ghost predicate IsFirstDisagreement(g: Graph, domains: Domains, selectors: seq<SelectorRequirement>, d: Name,
                                      c: Component, e: SelectorError) {
    && IsDomainComponent(g, domains, d, c) && !Agree(d, c.members, selectors)
    && IsDisagreement(d, c.members, selectors, e)
    && forall b, k :: IsDomainComponent(g, domains, b, k) && ComponentBefore((b, k), (d, c)) ==>
         Agree(b, k.members, selectors)
  }

  ghost predicate Disagrees(g: Graph, domains: Domains, selectors: seq<SelectorRequirement>, d: Name,
                            e: SelectorError) {
    exists c :: IsFirstDisagreement(g, domains, selectors, d, c, e)
  }

  /** A class with its gates is one of the components found. */
  lemma ComponentIsListed(g: Graph, domain: set<Name>, cs: seq<Component>, c: Component)
    requires AreComponents(g, domain, cs) && IsClass(Weak(g, domain), c.members) && AreGates(g, c)
    ensures c in cs
  {
    var a :| a in c.members;
    var i :| 0 <= i < |cs| && a in cs[i].members;
    ClassesMeet(Weak(g, domain), c.members, cs[i].members, a);
    GatesAreDetermined(g, c, cs[i]);
  }

  /** The selectors of every domain component stay inside it and agree. */
  ghost predicate Consistent(g: Graph, domains: Domains, selectors: seq<SelectorRequirement>) {
    forall d, c :: IsDomainComponent(g, domains, d, c) ==> Agree(d, c.members, selectors)
  }

  /** Everything known about the families and cohorts of a successful plan. */
  ghost predicate AreInferred(g: Graph, domains: Domains, selectors: seq<SelectorRequirement>,
                              families: seq<FamilyPlan>, cohorts: F.Cohorts) {
    && (forall x :: x in cohorts <==> exists d, c :: IsDomainComponent(g, domains, d, c) && c.members == x && 1 < |x|)
    && (forall f :: f in families <==> exists d, c ::
         IsDomainComponent(g, domains, d, c) && IsFamilyFor(domains, selectors, d, c, Some(f)))
    && InPlanOrder(families)
    && exists done :: AreDomainComponents(g, domains, done) && cohorts == CohortsFrom(done)
  }

  /** What holds once all components of the first domains in order are done. */
  ghost predicate DomainsDone(g: Graph, domains: Domains, order: seq<Name>, k: nat, done: seq<(Name, Component)>)
    requires k <= |order|
  {
    && (forall x :: x in done ==> x.0 in order[..k])
    && (forall d, c :: d in order[..k] && IsDomainComponent(g, domains, d, c) ==> (d, c) in done)
  }

  lemma DomainsDoneOneMore(g: Graph, domains: Domains, order: seq<Name>, k: nat,
                           done: seq<(Name, Component)>, done': seq<(Name, Component)>)
    requires k < |order| && DomainsDone(g, domains, order, k, done) && DomainDone(g, domains, order[k], done, done')
    ensures DomainsDone(g, domains, order, k + 1, done')
  {
    assert order[..k + 1] == order[..k] + [order[k]];
  }

  lemma DoneIsEarlier(g: Graph, domains: Domains, order: seq<Name>, k: nat, done: seq<(Name, Component)>)
    requires InOrder(Lexicographic, order) && k < |order| && DomainsDone(g, domains, order, k, done)
    ensures forall e: Name, c: Component :: (e, c) in done ==> Before(Lexicographic, e, order[k])
  {
    forall e: Name, c: Component | (e, c) in done ensures Before(Lexicographic, e, order[k]) {
      assert (e, c).0 in order[..k];
      var i :| 0 <= i < k && order[i] == e;
      PositionFollowsOrder(Lexicographic, order, i, k);
    }
  }

  lemma EarlierIsDone(g: Graph, domains: Domains, order: seq<Name>, k: nat, done: seq<(Name, Component)>)
    requires InOrder(Lexicographic, order) && (forall d :: d in order <==> d in domains)
    requires k < |order| && DomainsDone(g, domains, order, k, done)
    ensures EarlierDone(g, domains, order[k], done)
  {
    forall e, c | IsDomainComponent(g, domains, e, c) && Before(Lexicographic, e, order[k]) ensures (e, c) in done {
      var i :| 0 <= i < |order| && order[i] == e;
      PositionFollowsOrder(Lexicographic, order, i, k);
      assert order[..k][i] == e;
    }
  }

  /** Collect the families and cohorts of all domains, in domain order. */
  method PlanDomains(g: RouteGraph, domains: Domains, selectors: seq<SelectorRequirement>)
    returns (fault: Option<SelectorError>, families: seq<FamilyPlan>, cohorts: F.Cohorts)
    requires g.Value().Valid() && DomainsKnown(g.Value(), domains) && SelectorsOk(domains, selectors)
    ensures fault.None? <==> Consistent(g.Value(), domains, selectors)
    ensures fault.None? ==>
      && AreInferred(g.Value(), domains, selectors, families, cohorts)
      && (DomainsOk(domains) ==> F.FamiliesOk(g.actors, Tables(families)) && F.CohortsOk(g.actors, cohorts))
    ensures fault.Some? ==> exists d :: Disagrees(g.Value(), domains, selectors, d, fault.value)
  {
    fault, families, cohorts := None, [], [];
    ghost var done: seq<(Name, Component)> := [];
    var order := Sorted(Lexicographic, domains.Keys);
    for k := 0 to |order|
      invariant Collected(g.Value(), domains, selectors, done, families, cohorts)
      invariant DomainsDone(g.Value(), domains, order, k, done)
      invariant fault.None?
    {
      assert order[k] in order;
      DoneIsEarlier(g.Value(), domains, order, k, done);
      EarlierIsDone(g.Value(), domains, order, k, done);
      ghost var before := done;
      fault, families, cohorts, done := PlanDomain(g, domains, selectors, order[k], families, cohorts, done);
      if fault.Some? {
        assert Disagrees(g.Value(), domains, selectors, order[k], fault.value);
        return;
      }
      DomainsDoneOneMore(g.Value(), domains, order, k, before, done);
    }
    assert order[..|order|] == order;
    AllInferred(g.Value(), domains, selectors, order, done, families, cohorts);
  }

  lemma AllInferred(g: Graph, domains: Domains, selectors: seq<SelectorRequirement>, order: seq<Name>,
                    done: seq<(Name, Component)>, families: seq<FamilyPlan>, cohorts: F.Cohorts)
    requires forall d :: d in order <==> d in domains
    requires Collected(g, domains, selectors, done, families, cohorts) && DomainsDone(g, domains, order, |order|, done)
    ensures Consistent(g, domains, selectors) && AreInferred(g, domains, selectors, families, cohorts)
  {
    assert order[..|order|] == order;
    forall d: Name, c: Component ensures (d, c) in done <==> IsDomainComponent(g, domains, d, c) {
    }
    assert AreDomainComponents(g, domains, done);
    CohortsFromOver(done);
    forall x ensures x in cohorts <==> exists d, c :: IsDomainComponent(g, domains, d, c) && c.members == x && 1 < |x| {
      if d, c :| IsDomainComponent(g, domains, d, c) && c.members == x && 1 < |x| {
        assert (d, c) in done;
      }
      if x in cohorts {
        var d: Name, c: Component :| (d, c) in done && c.members == x && 1 < |x|;
        assert IsDomainComponent(g, domains, d, c);
      }
    }
    forall f ensures f in families <==> exists d, c ::
      IsDomainComponent(g, domains, d, c) && IsFamilyFor(domains, selectors, d, c, Some(f))
    {
      if d, c :| IsDomainComponent(g, domains, d, c) && IsFamilyFor(domains, selectors, d, c, Some(f)) {
        assert (d, c) in done;
      }
      if f in families {
        var d: Name, c: Component :| (d, c) in done && IsFamilyFor(domains, selectors, d, c, Some(f));
        assert IsDomainComponent(g, domains, d, c);
      }
    }
  }

  ghost predicate IsFirstFault(domains: Domains, selectors: seq<SelectorRequirement>, e: SelectorError) {
    exists k :: 0 <= k < |selectors| && SelectorsOk(domains, selectors[..k]) && IsFault(domains, selectors[k], k, e)
  }

  /** The first thing wrong with the inferred tables, or, when they are fine, with the inferred cohorts. */
  ghost predicate IsConstraintFault(g: Graph, domains: Domains, selectors: seq<SelectorRequirement>,
                                    e: F.ConstraintError) {
    exists families, cohorts ::
      && AreInferred(g, domains, selectors, families, cohorts)
      && (if F.FamiliesOk(g.actors, Tables(families)) then F.IsFirstCohortError(g.actors, cohorts, e)
          else F.IsFirstFamilyError(g.actors, Tables(families), e))
  }

  /** Derive families and cohorts, and plan their commitments. On duplicate-free domains
      that share no actor, only the selectors can be at fault. */
  method PlanRoutes(g: RouteGraph, domains: Domains, selectors: seq<SelectorRequirement>)
    returns (r: Result<RoutePlan, RoutePlanError>, ghost cohorts: F.Cohorts)
    requires g.Value().Valid() && DomainsKnown(g.Value(), domains)
    ensures r.Ok? ==>
      && SelectorsOk(domains, selectors) && Consistent(g.Value(), domains, selectors)
      && AreInferred(g.Value(), domains, selectors, r.value.families, cohorts)
      && F.FamiliesOk(g.actors, Tables(r.value.families)) && F.CohortsOk(g.actors, cohorts)
      && KnownCohorts(g.Value(), CohortSet(cohorts))
      && IsPlan(g.Value(), FamilySet(Tables(r.value.families)), CohortSet(cohorts), r.value.commitments)
    ensures r.Err? && r.error.Selector? ==>
      if SelectorsOk(domains, selectors)
      then exists d :: Disagrees(g.Value(), domains, selectors, d, r.error.selector)
      else IsFirstFault(domains, selectors, r.error.selector)
    ensures r.Err? && r.error.Constraint? ==>
      && SelectorsOk(domains, selectors) && Consistent(g.Value(), domains, selectors)
      && IsConstraintFault(g.Value(), domains, selectors, r.error.constraint)
    ensures DomainsOk(domains) ==>
      && !(r.Err? && r.error.Constraint?)
      && (r.Ok? <==> SelectorsOk(domains, selectors) && Consistent(g.Value(), domains, selectors))
  {
    cohorts := [];
    var fault := ValidateSelectorRequirements(domains, selectors);
    if fault.Some? {
      return Err(Selector(fault.value)), cohorts;
    }
    var fault', families, inferred := PlanDomains(g, domains, selectors);
    cohorts := inferred;
    if fault'.Some? {
      return Err(Selector(fault'.value)), cohorts;
    }
    var planned := PlanCommitments(g, CommitmentConstraints(Tables(families), inferred));
    if planned.Err? {
      assert IsConstraintFault(g.Value(), domains, selectors, planned.error);
      return Err(Constraint(planned.error)), cohorts;
    }
    return Ok(RoutePlan(families, planned.value)), cohorts;
  }

  // ---------- Selectors index route tables ----------

  /** Every accepted selector has a family whose table starts with its variants. */
  lemma SelectorsAreServed(g: Graph, domains: Domains, selectors: seq<SelectorRequirement>,
                           families: seq<FamilyPlan>, cohorts: F.Cohorts, s: SelectorRequirement)
    requires SelectorsOk(domains, selectors) && Consistent(g, domains, selectors) && s in selectors
    requires AreInferred(g, domains, selectors, families, cohorts)
    ensures Served(families, s)
  {
    assert SelectorOk(domains, s);
    var order := domains[s.domain];
    var c := EveryActorHasComponent(g, Elements(order), s.source);
    assert IsDomainComponent(g, domains, s.domain, c) && Applies(s.domain, c.members, s);
    assert Agree(s.domain, c.members, selectors);
    assert IsPrefix(s.domain, c.members, selectors, Some(s.variants));
    var members, gates := OrderedMembers(order, c.members), OrderedMembers(order, c.gates);
    assert s.source in members;
    var family := FamilyPlan(s.domain, if gates != [] then gates[0] else members[0], members, gates,
                             s.variants + OrderedMembers(order, c.members - c.gates - Elements(s.variants)));
    assert IsFamilyOf(s.domain, order, c, Some(s.variants), Some(family));
    assert IsFamilyFor(domains, selectors, s.domain, c, Some(family));
    assert family in families;
    var k :| 0 <= k < |families| && families[k] == family;
    assert s.variants <= family.table;
  }

  /** The actors follow each other in the list as they do in the domain. */
  ghost predicate FollowsOrder(order: seq<Name>, s: seq<Name>) {
    forall i, j, p, q :: 0 <= i < j < |s| && 0 <= p < |order| && 0 <= q < |order| && order[p] == s[i] && order[q] == s[j] ==>
      p < q
  }

  lemma {:induction false} FilterFollowsOrder(order: seq<Name>, members: set<Name>)
    requires Distinct(order)
    ensures FollowsOrder(order, OrderedMembers(order, members))
  {
    if order != [] {
      var s, rest := OrderedMembers(order, members), OrderedMembers(order[1..], members);
      FilterFollowsOrder(order[1..], members);
      forall i, j, p, q | 0 <= i < j < |s| && 0 <= p < |order| && 0 <= q < |order| && order[p] == s[i] && order[q] == s[j]
        ensures p < q
      {
        var skip := if order[0] in members then 1 else 0;
        assert s[j] == rest[j - skip] && rest[j - skip] in rest;
        assert q > 0 && order[1..][q - 1] == s[j];
        if p > 0 {
          assert order[1..][p - 1] == s[i];
          assert i - skip >= 0 && rest[i - skip] == s[i];
        }
      }
    }
  }

  /** A table: the variants asked for, then the other members that are not gates, in domain order. The members left
      out are the gates nobody asked for. */
  ghost predicate IsCanonical(order: seq<Name>, f: FamilyPlan, variants: seq<Name>) {
    && 2 <= |f.table| && Distinct(f.table)
    && variants <= f.table && FollowsOrder(order, f.table[|variants|..])
    && (forall a :: a in f.table ==> a in f.members)
    && (forall a :: a in f.members ==> (a !in f.table <==> a in f.gates && a !in variants))
  }

  /** The variants a component's selectors ask for, none without a selector. */
  function Variants(prefix: Option<seq<Name>>): seq<Name> {
    if prefix.Some? then prefix.value else []
  }

  /** Every family table has at least two distinct actors; it starts with the variants that the selectors of its
      component ask for and continues in domain order. Its complement among the members is the remaining gates. */
  lemma TablesAreCanonical(g: Graph, domains: Domains, selectors: seq<SelectorRequirement>,
                           families: seq<FamilyPlan>, cohorts: F.Cohorts, f: FamilyPlan)
    requires SelectorsOk(domains, selectors) && AreInferred(g, domains, selectors, families, cohorts) && f in families
    requires f.domain in domains ==> Distinct(domains[f.domain])
    ensures f.domain in domains
    ensures exists prefix :: IsPrefix(f.domain, Elements(f.members), selectors, prefix)
                          && IsCanonical(domains[f.domain], f, Variants(prefix))
  {
    var d: Name, c: Component :| IsDomainComponent(g, domains, d, c) && IsFamilyFor(domains, selectors, d, c, Some(f));
    var prefix :| IsPrefix(d, c.members, selectors, prefix) && IsFamilyOf(d, domains[d], c, prefix, Some(f));
    ComponentMembersListed(g, Elements(domains[d]), c);
    MembersAreListed(domains, selectors, d, c, f);
    TableIsCanonical(domains, selectors, d, c, prefix, f);
  }

  lemma TableIsCanonical(domains: Domains, selectors: seq<SelectorRequirement>, d: Name, c: Component,
                         prefix: Option<seq<Name>>, f: FamilyPlan)
    requires SelectorsOk(domains, selectors) && d in domains && Distinct(domains[d])
    requires c.members <= Elements(domains[d]) && c.gates <= c.members
    requires IsPrefix(d, c.members, selectors, prefix) && IsFamilyOf(d, domains[d], c, prefix, Some(f))
    ensures IsCanonical(domains[d], f, Variants(prefix))
  {
    var variants := Variants(prefix);
    if prefix.Some? {
      var s :| s in selectors && Applies(d, c.members, s);
      assert SelectorOk(domains, s) && s.variants == variants;
    }
    var rest := OrderedMembers(domains[d], c.members - c.gates - Elements(variants));
    assert c.members - c.gates - Elements([]) == c.members - c.gates;
    assert f.table == variants + rest;
    assert f.table[|variants|..] == rest;
    FilterFollowsOrder(domains[d], c.members - c.gates - Elements(variants));
    TableIsInside(domains[d], d, c, prefix, f);
    forall a ensures a in f.table <==> a in variants || (a in c.members && a !in c.gates) {
      assert a in f.table <==> a in variants || a in rest;
    }
  }

  // ---------- Which components have a family ----------

  /** Position `p` holds the first actor of the set in the listed order. */
  ghost predicate IsFirstListed(order: seq<Name>, s: set<Name>, p: nat, a: Name) {
    p < |order| && order[p] == a && a in s && forall q :: 0 <= q < p ==> order[q] !in s
  }

  /** The actor is the first of the set in the listed order. */
  ghost predicate IsFirstOf(order: seq<Name>, s: set<Name>, a: Name) {
    exists p: nat :: IsFirstListed(order, s, p, a)
  }

  lemma {:induction false} FirstListed(order: seq<Name>, s: set<Name>) returns (p: nat)
    requires OrderedMembers(order, s) != []
    ensures IsFirstListed(order, s, p, OrderedMembers(order, s)[0])
  {
    if order[0] in s {
      p := 0;
    } else {
      p := FirstListed(order[1..], s);
      p := p + 1;
      assert forall q :: 0 < q < p ==> order[q] == order[1..][q - 1];
    }
  }

  lemma MembersAreCounted(order: seq<Name>, s: set<Name>)
    requires Distinct(order) && s <= Elements(order)
    ensures Elements(OrderedMembers(order, s)) == s && |OrderedMembers(order, s)| == |s|
  {
    DistinctSize(OrderedMembers(order, s));
  }

  ghost predicate IsOfComponent(f: FamilyPlan, d: Name, c: Component) {
    f.domain == d && Elements(f.members) == c.members
  }

  /** A component has a family when a selector asks for one, or when it has three members and two of them are no gates. */
  ghost predicate DeservesFamily(selectors: seq<SelectorRequirement>, d: Name, c: Component) {
    || (exists s :: s in selectors && s.domain == d && s.source in c.members)
    || (3 <= |c.members| && 2 <= |c.members - c.gates|)
  }

  lemma FamilyDescribes(g: Graph, domains: Domains, selectors: seq<SelectorRequirement>, families: seq<FamilyPlan>,
                        cohorts: F.Cohorts, d: Name, c: Component, f: FamilyPlan)
    requires AreInferred(g, domains, selectors, families, cohorts) && IsDomainComponent(g, domains, d, c)
    requires f in families && IsOfComponent(f, d, c)
    ensures IsFamilyFor(domains, selectors, d, c, Some(f))
  {
    var e, k :| IsDomainComponent(g, domains, e, k) && IsFamilyFor(domains, selectors, e, k, Some(f));
    ComponentMembersListed(g, Elements(domains[e]), k);
    MembersAreListed(domains, selectors, e, k, f);
    GatesAreDetermined(g, c, k);
  }

  lemma FamilyIsListed(g: Graph, domains: Domains, selectors: seq<SelectorRequirement>, families: seq<FamilyPlan>,
                       cohorts: F.Cohorts, d: Name, c: Component, f: FamilyPlan)
    requires AreInferred(g, domains, selectors, families, cohorts) && IsDomainComponent(g, domains, d, c)
    requires IsFamilyFor(domains, selectors, d, c, Some(f))
    ensures f in families
  {
  }

  lemma FamilyIsDeserved(domains: Domains, selectors: seq<SelectorRequirement>, d: Name, c: Component, f: FamilyPlan)
    requires d in domains && Distinct(domains[d]) && c.members <= Elements(domains[d])
    requires IsFamilyFor(domains, selectors, d, c, Some(f))
    ensures DeservesFamily(selectors, d, c)
  {
    MembersAreCounted(domains[d], c.members - c.gates);
    var prefix :| IsPrefix(d, c.members, selectors, prefix) && IsFamilyOf(d, domains[d], c, prefix, Some(f));
    if prefix.Some? {
      var s :| s in selectors && Applies(d, c.members, s);
    }
  }

  lemma DeservedFamily(domains: Domains, selectors: seq<SelectorRequirement>, d: Name, c: Component)
    returns (f: FamilyPlan)
    requires d in domains && Distinct(domains[d]) && c.members <= Elements(domains[d]) && c.members != {}
    requires Agree(d, c.members, selectors) && DeservesFamily(selectors, d, c)
    ensures IsFamilyFor(domains, selectors, d, c, Some(f))
  {
    var order := domains[d];
    var members, gates := OrderedMembers(order, c.members), OrderedMembers(order, c.gates);
    MembersAreCounted(order, c.members);
    MembersAreCounted(order, c.members - c.gates);
    var rep := if gates != [] then gates[0] else members[0];
    if s :| s in selectors && Applies(d, c.members, s) {
      f := FamilyPlan(d, rep, members, gates, s.variants + OrderedMembers(order, c.members - c.gates - Elements(s.variants)));
      assert IsPrefix(d, c.members, selectors, Some(s.variants)) && IsFamilyOf(d, order, c, Some(s.variants), Some(f));
    } else {
      f := FamilyPlan(d, rep, members, gates, OrderedMembers(order, c.members - c.gates));
      assert forall s :: s in selectors && s.domain == d && s.source in c.members ==> Applies(d, c.members, s);
      assert IsPrefix(d, c.members, selectors, None) && IsFamilyOf(d, order, c, None, Some(f));
    }
  }

  /** Exactly the components that deserve one have a family. */
  lemma ComponentsWithFamilies(g: Graph, domains: Domains, selectors: seq<SelectorRequirement>,
                               families: seq<FamilyPlan>, cohorts: F.Cohorts, d: Name, c: Component)
    requires Consistent(g, domains, selectors) && AreInferred(g, domains, selectors, families, cohorts)
    requires IsDomainComponent(g, domains, d, c) && Distinct(domains[d])
    ensures (exists f :: f in families && IsOfComponent(f, d, c)) <==>
              || (exists s :: s in selectors && s.domain == d && s.source in c.members)
              || (3 <= |c.members| && 2 <= |c.members - c.gates|)
  {
    ComponentMembersListed(g, Elements(domains[d]), c);
    forall f | f in families && IsOfComponent(f, d, c) ensures DeservesFamily(selectors, d, c) {
      FamilyDescribes(g, domains, selectors, families, cohorts, d, c, f);
      FamilyIsDeserved(domains, selectors, d, c, f);
    }
    if DeservesFamily(selectors, d, c) {
      assert Agree(d, c.members, selectors);
      var f := DeservedFamily(domains, selectors, d, c);
      FamilyIsListed(g, domains, selectors, families, cohorts, d, c, f);
      MembersAreListed(domains, selectors, d, c, f);
      assert IsOfComponent(f, d, c);
    }
  }

  lemma LaterFamilyDiffers(families: seq<FamilyPlan>, i: nat, j: nat)
    requires InPlanOrder(families) && j < |families|
    ensures i < j ==> families[i].domain != families[j].domain || Elements(families[i].members) != Elements(families[j].members)
  {
    OrderIsStrictTotal(Lexicographic);
    assert i < j ==> FamilyBefore(families[i], families[j]);
  }

  /** A component has one family at most. */
  lemma ComponentHasOneFamily(families: seq<FamilyPlan>, d: Name, c: Component, i: nat, j: nat)
    requires InPlanOrder(families) && i < |families| && j < |families|
    requires IsOfComponent(families[i], d, c) && IsOfComponent(families[j], d, c)
    ensures i == j
  {
    LaterFamilyDiffers(families, i, j);
    LaterFamilyDiffers(families, j, i);
  }

  /** A family lists its component's members and gates in domain order, and is represented by the first gate, or by the
      first member when there is no gate. */
  lemma FamilyListsComponent(g: Graph, domains: Domains, selectors: seq<SelectorRequirement>,
                             families: seq<FamilyPlan>, cohorts: F.Cohorts, d: Name, c: Component, f: FamilyPlan)
    requires AreInferred(g, domains, selectors, families, cohorts)
    requires IsDomainComponent(g, domains, d, c) && Distinct(domains[d])
    requires f in families && IsOfComponent(f, d, c)
    ensures Elements(f.gates) == c.gates
    ensures FollowsOrder(domains[d], f.members) && FollowsOrder(domains[d], f.gates)
    ensures if c.gates != {} then IsFirstOf(domains[d], c.gates, f.rep) else IsFirstOf(domains[d], c.members, f.rep)
  {
    FamilyDescribes(g, domains, selectors, families, cohorts, d, c, f);
    ComponentMembersListed(g, Elements(domains[d]), c);
    DescribedInOrder(domains, selectors, d, c, f);
  }

  lemma DescribedInOrder(domains: Domains, selectors: seq<SelectorRequirement>, d: Name, c: Component, f: FamilyPlan)
    requires d in domains && Distinct(domains[d]) && c.gates <= c.members <= Elements(domains[d])
    requires IsFamilyFor(domains, selectors, d, c, Some(f))
    ensures Elements(f.gates) == c.gates
    ensures FollowsOrder(domains[d], f.members) && FollowsOrder(domains[d], f.gates)
    ensures if c.gates != {} then IsFirstOf(domains[d], c.gates, f.rep) else IsFirstOf(domains[d], c.members, f.rep)
  {
    var order := domains[d];
    assert DescribesComponent(d, order, c, f);
    MembersAreCounted(order, c.gates);
    FilterFollowsOrder(order, c.members);
    FilterFollowsOrder(order, c.gates);
    var p := FirstListed(order, if f.gates != [] then c.gates else c.members);
  }

  /** Two different actors share a cohort exactly when they are in one component of some domain. */
  lemma CohortsAreComponents(g: Graph, domains: Domains, selectors: seq<SelectorRequirement>,
                             families: seq<FamilyPlan>, cohorts: F.Cohorts, a: Name, b: Name)
    requires AreInferred(g, domains, selectors, families, cohorts) && a != b
    ensures (exists x :: x in cohorts && a in x && b in x) <==>
              exists d, c :: IsDomainComponent(g, domains, d, c) && a in c.members && b in c.members
  {
    if d, c :| IsDomainComponent(g, domains, d, c) && a in c.members && b in c.members {
      TwoMembers(c.members, a, b);
      assert c.members in cohorts;
    }
    if x :| x in cohorts && a in x && b in x {
      var d, c :| IsDomainComponent(g, domains, d, c) && c.members == x && 1 < |x|;
    }
  }

  lemma TwoMembers(s: set<Name>, a: Name, b: Name)
    requires a in s && b in s && a != b
    ensures 1 < |s|
  {
    assert {a, b} <= s;
    assert |s| == |{a, b}| + |s - {a, b}|;
  }

  /** No cohort is a single actor. */
  lemma CohortsHaveTwoMembers(g: Graph, domains: Domains, selectors: seq<SelectorRequirement>,
                              families: seq<FamilyPlan>, cohorts: F.Cohorts, x: set<Name>) returns (a: Name, b: Name)
    requires AreInferred(g, domains, selectors, families, cohorts) && x in cohorts
    ensures a in x && b in x && a != b
  {
    assert 1 < |x|;
    a :| a in x;
    assert |x - {a}| == |x| - 1;
    b :| b in x - {a};
  }

  lemma TablesAreDisjoint(actors: set<Name>, tables: F.Families)
    requires F.FamiliesOk(actors, tables)
    ensures DisjointFamilies(FamilySet(tables))
  {
    forall f, h, a | f in FamilySet(tables) && h in FamilySet(tables) && a in f && a in h ensures f == h {
      var i :| 0 <= i < |tables| && tables[i] == f;
      var j :| 0 <= j < |tables| && tables[j] == h;
    }
  }

  /** Each table is the branch of some root of the planned forest. */
  lemma BranchOfTable(actors: set<Name>, tables: F.Families, k: nat) returns (r: nat)
    requires F.FamiliesOk(actors, tables) && k < |tables|
    ensures var roots := RootsOver(Sorted(Lexicographic, actors), FamilySet(tables));
      r < |roots| && roots[r] == Branch(Leaves(tables[k]))
  {
    var order, first := Sorted(Lexicographic, actors), tables[k][0];
    TablesAreDisjoint(actors, tables);
    assert first in tables[k] && first in order;
    r := RootsHoldFamily(order, FamilySet(tables), tables[k], first);
  }

  lemma BranchChild(f: CommitmentForest, branch: NodePath, family: seq<Name>, i: nat)
    requires f.Lookup(branch) == Some(Branch(Leaves(family))) && i < |family|
    ensures f.Lookup(Child(branch, i)) == Some(Leaf(family[i]))
  {
    f.LookupChild(branch, i);
  }

  /** Variant `i` of an accepted selector is child `i` of one branch of the forest. */
  lemma SelectorsIndexTheForest(g: Graph, families: seq<FamilyPlan>, cohorts: set<set<Name>>,
                                commitments: CommitmentPlan,
                                s: SelectorRequirement) returns (branch: NodePath)
    requires g.Valid() && KnownCohorts(g, cohorts) && F.FamiliesOk(g.actors, Tables(families))
    requires IsPlan(g, FamilySet(Tables(families)), cohorts, commitments)
    requires Served(families, s) && s.variants != []
    ensures commitments.forest.IsBranch(branch)
    ensures forall i: nat :: i < |s.variants| ==>
      commitments.forest.Lookup(Child(branch, i)) == Some(Leaf(s.variants[i]))
  {
    var k :| 0 <= k < |families| && families[k].domain == s.domain && s.source in families[k].members
      && s.variants <= families[k].table;
    var tables := Tables(families);
    assert tables[k] == families[k].table;
    var r := BranchOfTable(g.actors, tables, k);
    branch := Root(r);
    forall i: nat | i < |s.variants| ensures commitments.forest.Lookup(Child(branch, i)) == Some(Leaf(s.variants[i])) {
      BranchChild(commitments.forest, branch, tables[k], i);
    }
  }
}
