/** Weak emit components of a domain of actors, and their inbound gates. */
module Components {
  import opened Ordering
  import opened RouteGraphs

  datatype Component = Component(members: set<Name>, gates: set<Name>)

  // ---------- What a component is ----------

  /** Two distinct actors joined by an emit edge in either direction. */
  ghost predicate Linked(g: Graph, a: Name, b: Name) {
    a != b && (Emit(g, a, b) || Emit(g, b, a))
  }

  /** The emit graph induced by the domain, with edge direction erased. */
  ghost function Weak(g: Graph, domain: set<Name>): Graph {
    Graph(domain, map a | a in domain :: (set b | b in domain && Linked(g, a, b)), map[])
  }

  ghost predicate Symmetric(w: Graph) {
    forall a, b :: Emit(w, a, b) ==> Emit(w, b, a)
  }

  ghost predicate Connected(w: Graph, a: Name, b: Name) {
    a == b || Reaches(w, a, b)
  }

  /** The members are exactly what is connected to any one of them. */
  ghost predicate IsClass(w: Graph, members: set<Name>) {
    && members != {} && members <= w.actors
    && forall a, b {:trigger Connected(w, a, b)} ::
         a in members ==> (b in members <==> b in w.actors && Connected(w, a, b))
  }

  /** Members with an incoming emit edge from outside their own component. */
  ghost predicate AreGates(g: Graph, c: Component) {
    forall t :: t in c.gates <==> t in c.members && exists s :: Emit(g, s, t) && s !in c.members
  }

  ghost predicate InLeastMemberOrder(cs: seq<Component>) {
    forall i, j :: 0 <= i < j < |cs| && cs[i].members != {} && cs[j].members != {} ==>
      Before(Lexicographic, First(Lexicographic, cs[i].members), First(Lexicographic, cs[j].members))
  }

  ghost predicate ArePartition(domain: set<Name>, cs: seq<Component>) {
    && (forall a :: a in domain ==> exists i :: 0 <= i < |cs| && a in cs[i].members)
    && (forall i, j :: 0 <= i < j < |cs| ==> cs[i].members !! cs[j].members)
  }

  ghost predicate AreComponents(g: Graph, domain: set<Name>, cs: seq<Component>) {
    && (forall i :: 0 <= i < |cs| ==> IsClass(Weak(g, domain), cs[i].members) && AreGates(g, cs[i]))
    && ArePartition(domain, cs)
    && InLeastMemberOrder(cs)
  }

  // ---------- Connectivity ----------

  ghost predicate ClosedUnder(w: Graph, s: set<Name>) {
    forall a :: a in s ==> w.EmitsOf(a) <= s
  }

  lemma {:induction false} WalkStaysInside(w: Graph, s: set<Name>, p: seq<Name>)
    requires ClosedUnder(w, s) && Walk(w, p) && p[0] in s
    ensures p[|p| - 1] in s
  {
    if 1 < |p| {
      WalkStaysInside(w, s, p[1..]);
    }
  }

  lemma {:induction false} WalkReverses(w: Graph, p: seq<Name>)
    requires Symmetric(w) && 2 <= |p| && Walk(w, p)
    ensures Reaches(w, p[|p| - 1], p[0])
  {
    ReachesByEdge(w, p[1], p[0]);
    if 2 < |p| {
      WalkReverses(w, p[1..]);
      ReachesTransitive(w, p[|p| - 1], p[1], p[0]);
    }
  }

  /** Two classes with a common member are equal. */
  lemma ClassesMeet(w: Graph, x: set<Name>, y: set<Name>, a: Name)
    requires IsClass(w, x) && IsClass(w, y) && a in x && a in y
    ensures x == y
  {
    forall b ensures b in x <==> b in y {
      assert b in x <==> b in w.actors && Connected(w, a, b);
    }
  }

  lemma GatesAreDetermined(g: Graph, c: Component, d: Component)
    requires AreGates(g, c) && AreGates(g, d) && c.members == d.members
    ensures c == d
  {
  }

  /** In a symmetric graph, being connected is an equivalence. */
  lemma ConnectedBothWays(w: Graph, seed: Name, a: Name, b: Name)
    requires Symmetric(w) && Connected(w, seed, a) && Connected(w, seed, b)
    ensures Connected(w, a, b)
  {
    if a != seed {
      var p :| 2 <= |p| && WalkBetween(w, seed, a, p);
      WalkReverses(w, p);
      if b != seed {
        ReachesTransitive(w, a, seed, b);
      }
    }
  }

  /** Every actor of the domain belongs to a component. */
  lemma EveryActorHasComponent(g: Graph, domain: set<Name>, a: Name) returns (c: Component)
    requires a in domain
    ensures IsClass(Weak(g, domain), c.members) && AreGates(g, c) && a in c.members
  {
    var w := Weak(g, domain);
    var members := set b | b in domain && Connected(w, a, b);
    assert a in members;
    forall x, y | x in members ensures y in members <==> y in domain && Connected(w, x, y) {
      if y in members {
        ConnectedBothWays(w, a, x, y);
      } else if Connected(w, x, y) && x != a && x != y {
        ReachesTransitive(w, a, x, y);
      }
    }
    c := Component(members, set t | t in members && exists s :: Emit(g, s, t) && s !in members);
  }

  /** A closed set of actors all connected to one seed is a class. */
  lemma ClosedFromSeedIsClass(w: Graph, seed: Name, members: set<Name>)
    requires Symmetric(w) && seed in members && members <= w.actors && ClosedUnder(w, members)
    requires forall a :: a in members ==> Connected(w, seed, a)
    ensures IsClass(w, members)
  {
    forall a, b | a in members ensures b in members <==> b in w.actors && Connected(w, a, b) {
      if b in members {
        ConnectedBothWays(w, seed, a, b);
      } else if Reaches(w, a, b) {
        var p :| 2 <= |p| && WalkBetween(w, a, b, p);
        WalkStaysInside(w, members, p);
      }
    }
  }

  /** Inside a class, an edge from outside the class is an edge from outside the domain. */
  lemma GatesComeFromOutsideDomain(g: Graph, domain: set<Name>, members: set<Name>, t: Name)
    requires IsClass(Weak(g, domain), members) && t in members
    ensures (exists s :: Emit(g, s, t) && s !in members) <==> (exists s :: Emit(g, s, t) && s !in domain)
  {
    forall s | Emit(g, s, t) && s !in members ensures s !in domain {
      if s in domain {
        assert Emit(Weak(g, domain), t, s);
        ReachesByEdge(Weak(g, domain), t, s);
        assert Connected(Weak(g, domain), t, s);
      }
    }
  }

  /** Neither end of an emit edge inside the domain can be in the set without the other. */
  ghost predicate ClosedOverEmits(g: Graph, domain: set<Name>, s: set<Name>) {
    forall a, b :: Emit(g, a, b) && a in domain && b in domain ==> (a in s <==> b in s)
  }

  lemma {:induction false} ClosedAlongWalk(g: Graph, domain: set<Name>, s: set<Name>, p: seq<Name>)
    requires ClosedOverEmits(g, domain, s) && Walk(Weak(g, domain), p) && p[0] in s
    ensures p[|p| - 1] in s
  {
    if 1 < |p| {
      ClosedAlongWalk(g, domain, s, p[1..]);
    }
  }

  /** A component is closed over the emit edges inside the domain, and is the least such set around any member. */
  lemma ComponentsAreLeast(g: Graph, domain: set<Name>, members: set<Name>, s: set<Name>, a: Name)
    requires IsClass(Weak(g, domain), members)
    ensures members <= domain && ClosedOverEmits(g, domain, members)
    ensures ClosedOverEmits(g, domain, s) && a in members && a in s ==> members <= s
  {
    var w := Weak(g, domain);
    forall x, y | Emit(g, x, y) && x in domain && y in domain ensures x in members <==> y in members {
      if x != y {
        assert Emit(w, x, y) && Emit(w, y, x);
        ReachesByEdge(w, x, y);
        ReachesByEdge(w, y, x);
        assert Connected(w, x, y) && Connected(w, y, x);
      }
    }
    if ClosedOverEmits(g, domain, s) && a in members && a in s {
      forall b | b in members ensures b in s {
        assert Connected(w, a, b);
        if a != b {
          var p :| 2 <= |p| && WalkBetween(w, a, b, p);
          ClosedAlongWalk(g, domain, s, p);
        }
      }
    }
  }

  // ---------- Finding them ----------

  ghost predicate NeighborsOver(domain: set<Name>, done: set<(Name, Name)>, neighbors: map<Name, set<Name>>) {
    && neighbors.Keys == domain
    && forall a, b :: a in domain ==>
      (b in neighbors[a] <==> b in domain && a != b && ((a, b) in done || (b, a) in done))
  }

  ghost predicate GatesOver(domain: set<Name>, done: set<(Name, Name)>, gates: seq<Name>) {
    forall t :: t in gates <==> exists s :: (s, t) in done && s !in domain
  }

  /** Recording one more edge keeps the neighbours and gate targets in step with the edges seen. */
  lemma EdgeRecorded(domain: set<Name>, done: set<(Name, Name)>, neighbors: map<Name, set<Name>>, gates: seq<Name>,
                     s: Name, t: Name)
    requires NeighborsOver(domain, done, neighbors) && GatesOver(domain, done, gates) && t in domain
    ensures s == t ==> NeighborsOver(domain, done + {(s, t)}, neighbors)
    ensures s !in domain ==> NeighborsOver(domain, done + {(s, t)}, neighbors)
    ensures s != t && s in domain ==>
      var linked := neighbors[s := neighbors[s] + {t}];
      NeighborsOver(domain, done + {(s, t)}, linked[t := linked[t] + {s}])
    ensures GatesOver(domain, done + {(s, t)}, if s in domain then gates else gates + [t])
  {
    var gates' := if s in domain then gates else gates + [t];
    forall x ensures x in gates' <==> exists s' :: (s', x) in done + {(s, t)} && s' !in domain {
      if s !in domain && x == t {
        assert (s, x) in done + {(s, t)};
      }
      if x in gates {
        var s' :| (s', x) in done && s' !in domain;
        assert (s', x) in done + {(s, t)};
      }
    }
  }

  /** Record the edges from one source to its targets inside the domain. */
  method ScanTargets(domain: set<Name>, source: Name, targets: seq<Name>, ghost done: set<(Name, Name)>,
                     neighbors: map<Name, set<Name>>, gates: seq<Name>)
    returns (neighbors': map<Name, set<Name>>, gates': seq<Name>, ghost done': set<(Name, Name)>)
    requires NeighborsOver(domain, done, neighbors) && GatesOver(domain, done, gates)
    requires forall t :: t in targets ==> t in domain
    ensures NeighborsOver(domain, done', neighbors') && GatesOver(domain, done', gates')
    ensures forall s, t :: (s, t) in done' <==> (s, t) in done || (s == source && t in targets)
  {
    neighbors', gates', done' := neighbors, gates, done;
    for m := 0 to |targets|
      invariant NeighborsOver(domain, done', neighbors') && GatesOver(domain, done', gates')
      invariant forall s, t :: (s, t) in done' <==> (s, t) in done || (s == source && t in targets[..m])
    {
      var target := targets[m];
      EdgeRecorded(domain, done', neighbors', gates', source, target);
      done' := done' + {(source, target)};
      if source == target {
        continue;
      }
      if source !in domain {
        gates' := gates' + [target];
        continue;
      }
      neighbors' := neighbors'[source := neighbors'[source] + {target}];
      neighbors' := neighbors'[target := neighbors'[target] + {source}];
    }
  }

  /** The undirected neighbours inside the domain, and the targets of edges from outside it. */
  method Neighbors(g: RouteGraph, domain: set<Name>) returns (neighbors: map<Name, set<Name>>, gates: seq<Name>)
    requires g.Value().Valid() && domain <= g.actors
    ensures neighbors == Weak(g.Value(), domain).emits
    ensures forall t :: t in gates <==> t in domain && exists s :: Emit(g.Value(), s, t) && s !in domain
  {
    neighbors := map a | a in domain :: {};
    gates := [];
    ghost var done: set<(Name, Name)> := {};
    var sources := Sorted(Lexicographic, g.emits.Keys);
    for k := 0 to |sources|
      invariant NeighborsOver(domain, done, neighbors) && GatesOver(domain, done, gates)
      invariant forall s, t :: (s, t) in done <==> s in sources[..k] && t in domain && Emit(g.Value(), s, t)
    {
      var source := sources[k];
      assert source in g.emits;
      TakeOneMore(sources, k);
      var targets := Sorted(Lexicographic, g.emits[source] * domain);
      neighbors, gates, done := ScanTargets(domain, source, targets, done, neighbors, gates);
    }
    assert sources[..|sources|] == sources;
    AllEdgesSeen(g.Value(), domain, done, neighbors, gates);
  }

  lemma AllEdgesSeen(g: Graph, domain: set<Name>, done: set<(Name, Name)>, neighbors: map<Name, set<Name>>,
                     gates: seq<Name>)
    requires NeighborsOver(domain, done, neighbors) && GatesOver(domain, done, gates)
    requires forall s, t :: (s, t) in done <==> t in domain && Emit(g, s, t)
    ensures neighbors == Weak(g, domain).emits
    ensures forall t :: t in gates <==> t in domain && exists s :: Emit(g, s, t) && s !in domain
  {
    forall a | a in domain ensures neighbors[a] == Weak(g, domain).emits[a] {
      forall b ensures b in neighbors[a] <==> b in Weak(g, domain).emits[a] {
        assert b in domain ==> ((a, b) in done <==> Emit(g, a, b)) && ((b, a) in done <==> Emit(g, b, a));
      }
    }
    forall t ensures t in gates <==> t in domain && exists s :: Emit(g, s, t) && s !in domain {
      if t in domain && exists s :: Emit(g, s, t) && s !in domain {
        var s :| Emit(g, s, t) && s !in domain;
        assert (s, t) in done;
      }
    }
  }

  /** What holds while the component of `seed` is being collected: taken members and
      pending actors are what is newly assigned, all connected to the seed; only the
      neighbours of a member in `unscanned` may still be unassigned. */
  ghost predicate Exploring(w: Graph, seed: Name, before: map<Name, nat>, index: nat,
                            members: set<Name>, pending: seq<Name>, now: map<Name, nat>, unscanned: set<Name>) {
    var found := members + Elements(pending);
    && members !! Elements(pending) && Distinct(pending)
    && seed in found && found <= w.actors && found !! before.Keys
    && now.Keys == before.Keys + found
    && (forall a :: a in now ==> now[a] == if a in before then before[a] else index)
    && (forall a :: a in found ==> Connected(w, seed, a))
    && (forall a :: a in members && a !in unscanned ==> w.EmitsOf(a) <= now.Keys)
  }

  lemma MemberTaken(w: Graph, seed: Name, before: map<Name, nat>, index: nat,
                    members: set<Name>, pending: seq<Name>, now: map<Name, nat>, actor: Name)
    requires Exploring(w, seed, before, index, members, pending + [actor], now, {})
    ensures actor in w.actors && actor !in members
    ensures Exploring(w, seed, before, index, members + {actor}, pending, now, {actor})
  {
    var all := pending + [actor];
    assert forall i :: 0 <= i < |pending| ==> pending[i] == all[i];
    assert all[|pending|] == actor && actor !in pending;
    assert Elements(all) == Elements(pending) + {actor};
    assert members + {actor} + Elements(pending) == members + Elements(all);
  }

  lemma NeighborQueued(w: Graph, seed: Name, before: map<Name, nat>, index: nat,
                       members: set<Name>, pending: seq<Name>, now: map<Name, nat>, actor: Name, neighbor: Name)
    requires Exploring(w, seed, before, index, members, pending, now, {actor})
    requires w.Valid() && actor in members && neighbor !in now && Emit(w, actor, neighbor)
    ensures Exploring(w, seed, before, index, members, pending + [neighbor], now[neighbor := index], {actor})
  {
    ReachesByEdge(w, actor, neighbor);
    if actor != seed {
      ReachesTransitive(w, seed, actor, neighbor);
    }
    assert neighbor !in Elements(pending);
    assert Elements(pending + [neighbor]) == Elements(pending) + {neighbor};
    assert members + Elements(pending + [neighbor]) == members + Elements(pending) + {neighbor};
  }

  /** Assign and queue the neighbours of a member that no component holds yet. */
  method QueueNeighbors(ghost w: Graph, seed: Name, ghost before: map<Name, nat>, index: nat, ghost members: set<Name>,
                        pending: seq<Name>, now: map<Name, nat>, ghost actor: Name, around: seq<Name>)
    returns (pending': seq<Name>, now': map<Name, nat>)
    requires w.Valid() && actor in members && forall n :: n in around <==> Emit(w, actor, n)
    requires Exploring(w, seed, before, index, members, pending, now, {actor})
    ensures Exploring(w, seed, before, index, members, pending', now', {})
  {
    pending', now' := pending, now;
    for k := 0 to |around|
      invariant Exploring(w, seed, before, index, members, pending', now', {actor})
      invariant forall n :: n in around[..k] ==> n in now'
    {
      var neighbor := around[k];
      assert neighbor in around;
      TakeOneMore(around, k);
      if neighbor !in now' {
        NeighborQueued(w, seed, before, index, members, pending', now', actor, neighbor);
        now' := now'[neighbor := index];
        pending' := pending' + [neighbor];
      }
    }
    assert around[..|around|] == around;
  }

  /** Assign everything connected to the seed, which no earlier component holds. */
  method Discover(ghost w: Graph, neighbors: map<Name, set<Name>>, seed: Name,
                  byActor: map<Name, nat>, index: nat)
    returns (members: set<Name>, byActor': map<Name, nat>)
    requires w.Valid() && Symmetric(w) && neighbors == w.emits && neighbors.Keys == w.actors && seed in w.actors && seed !in byActor
    requires byActor.Keys <= w.actors && ClosedUnder(w, byActor.Keys)
    ensures seed in members && members <= w.actors && members !! byActor.Keys
    ensures ClosedUnder(w, members) && IsClass(w, members)
    ensures byActor'.Keys == byActor.Keys + members
    ensures forall a :: a in byActor' ==> byActor'[a] == if a in byActor then byActor[a] else index
  {
    members := {};
    byActor' := byActor[seed := index];
    var pending := [seed];
    assert Elements(pending) == {seed};
    while pending != []
      invariant Exploring(w, seed, byActor, index, members, pending, byActor', {})
      decreases w.actors - members
    {
      var actor := pending[|pending| - 1];
      LastPopped(pending);
      pending := pending[..|pending| - 1];
      MemberTaken(w, seed, byActor, index, members, pending, byActor', actor);
      members := members + {actor};
      var around := Sorted(Lexicographic, neighbors[actor]);
      pending, byActor' := QueueNeighbors(w, seed, byActor, index, members, pending, byActor', actor, around);
    }
    ExplorationIsClosed(w, seed, byActor, index, members, byActor');
    ClosedFromSeedIsClass(w, seed, members);
  }

  lemma ExplorationIsClosed(w: Graph, seed: Name, before: map<Name, nat>, index: nat,
                            members: set<Name>, now: map<Name, nat>)
    requires Symmetric(w) && ClosedUnder(w, before.Keys)
    requires Exploring(w, seed, before, index, members, [], now, {})
    ensures ClosedUnder(w, members)
    ensures seed in members && members <= w.actors && members !! before.Keys
    ensures now.Keys == before.Keys + members
    ensures forall a :: a in members ==> Connected(w, seed, a)
  {
    assert members + Elements([]) == members;
    forall a, b | a in members && Emit(w, a, b) ensures b in members {
      assert Emit(w, b, a);
    }
  }

  /** What holds of the components found from the first actors of the domain. */
  ghost predicate Found(w: Graph, cs: seq<Component>, byActor: map<Name, nat>) {
    && (forall i :: 0 <= i < |cs| ==> IsClass(w, cs[i].members) && ClosedUnder(w, cs[i].members))
    && (forall i :: 0 <= i < |cs| ==> cs[i].gates == {})
    && (forall a, i :: 0 <= i < |cs| ==> (a in cs[i].members <==> a in byActor && byActor[a] == i))
    && (forall a :: a in byActor ==> a in w.actors && byActor[a] < |cs|)
  }

  lemma ComponentAdded(w: Graph, cs: seq<Component>, byActor: map<Name, nat>,
                       members: set<Name>, byActor': map<Name, nat>)
    requires Found(w, cs, byActor)
    requires IsClass(w, members) && ClosedUnder(w, members) && members !! byActor.Keys
    requires byActor'.Keys == byActor.Keys + members
    requires forall a :: a in byActor' ==> byActor'[a] == if a in byActor then byActor[a] else |cs|
    ensures Found(w, cs + [Component(members, {})], byActor')
  {
  }

  lemma FoundIsClosed(w: Graph, cs: seq<Component>, byActor: map<Name, nat>)
    requires Found(w, cs, byActor)
    ensures ClosedUnder(w, byActor.Keys)
  {
    forall a | a in byActor ensures w.EmitsOf(a) <= byActor.Keys {
      assert a in cs[byActor[a]].members;
    }
  }

  /** The least member of every component is one of the seeds. */
  ghost predicate SeededBy(cs: seq<Component>, seeds: seq<Name>) {
    forall i :: 0 <= i < |cs| ==> cs[i].members != {} && First(Lexicographic, cs[i].members) in seeds
  }

  /** The new component's least member is the seed, and it follows every earlier one's. */
  lemma SeedOrdersComponent(domain: set<Name>, order: seq<Name>, k: nat, cs: seq<Component>, members: set<Name>)
    requires InOrder(Lexicographic, order) && (forall x :: x in order <==> x in domain) && k < |order|
    requires order[k] in members && members <= domain && forall x :: x in order[..k] ==> x !in members
    requires InLeastMemberOrder(cs)
    requires SeededBy(cs, order[..k])
    ensures First(Lexicographic, members) == order[k]
    ensures InLeastMemberOrder(cs + [Component(members, {})])
    ensures SeededBy(cs + [Component(members, {})], order[..k + 1])
  {
    TakeOneMore(order, k);
    var least := First(Lexicographic, members);
    assert least in order;
    var j :| 0 <= j < |order| && order[j] == least;
    assert forall i :: 0 <= i < k ==> order[i] in order[..k];
    PositionFollowsOrder(Lexicographic, order, k, j);
    if j > k {
      PositionFollowsOrder(Lexicographic, order, j, k);
    }
    forall i | 0 <= i < |cs| ensures Before(Lexicographic, First(Lexicographic, cs[i].members), order[k]) {
      var m :| 0 <= m < k && order[m] == First(Lexicographic, cs[i].members);
      PositionFollowsOrder(Lexicographic, order, m, k);
    }
  }

  /** Discover the components in domain order. */
  method DiscoverAll(ghost w: Graph, domain: set<Name>, neighbors: map<Name, set<Name>>)
    returns (cs: seq<Component>, byActor: map<Name, nat>)
    requires w.Valid() && Symmetric(w) && neighbors == w.emits && neighbors.Keys == domain == w.actors
    ensures Found(w, cs, byActor) && byActor.Keys == domain && InLeastMemberOrder(cs)
  {
    cs, byActor := [], map[];
    var order := Sorted(Lexicographic, domain);
    for k := 0 to |order|
      invariant Found(w, cs, byActor) && InLeastMemberOrder(cs)
      invariant forall x :: x in order[..k] ==> x in byActor
      invariant SeededBy(cs, order[..k])
    {
      var actor := order[k];
      assert actor in order;
      TakeOneMore(order, k);
      if actor in byActor {
        continue;
      }
      FoundIsClosed(w, cs, byActor);
      var members, byActor' := Discover(w, neighbors, actor, byActor, |cs|);
      ComponentAdded(w, cs, byActor, members, byActor');
      SeedOrdersComponent(domain, order, k, cs, members);
      cs := cs + [Component(members, {})];
      byActor := byActor';
    }
    assert order[..|order|] == order;
  }

  /** Adding gates leaves the members of every component alone. */
  ghost predicate SameMembers(cs: seq<Component>, ds: seq<Component>) {
    |cs| == |ds| && forall i :: 0 <= i < |cs| ==> cs[i].members == ds[i].members
  }

  method AssignGates(cs: seq<Component>, byActor: map<Name, nat>, gates: seq<Name>) returns (ds: seq<Component>)
    requires forall i :: 0 <= i < |cs| ==> cs[i].gates == {}
    requires forall t :: t in gates ==> t in byActor && byActor[t] < |cs|
    ensures SameMembers(cs, ds)
    ensures forall i, t :: 0 <= i < |ds| ==> (t in ds[i].gates <==> t in gates && byActor[t] == i)
  {
    ds := cs;
    for k := 0 to |gates|
      invariant SameMembers(cs, ds)
      invariant forall i, t :: 0 <= i < |ds| ==> (t in ds[i].gates <==> t in gates[..k] && byActor[t] == i)
    {
      var target := gates[k];
      assert target in gates && gates[..k + 1] == gates[..k] + [target];
      var index := byActor[target];
      ds := ds[index := ds[index].(gates := ds[index].gates + {target})];
    }
    assert gates[..|gates|] == gates;
  }

  /** The weak emit components of the domain, in the order of their least members, with their gates. */
  method FindComponents(g: RouteGraph, domain: set<Name>) returns (cs: seq<Component>)
    requires g.Value().Valid() && domain <= g.actors
    ensures AreComponents(g.Value(), domain, cs)
  {
    var neighbors, gates := Neighbors(g, domain);
    var found, byActor := DiscoverAll(Weak(g.Value(), domain), domain, neighbors);
    cs := AssignGates(found, byActor, gates);
    GatesAssigned(g.Value(), domain, found, byActor, gates, cs);
  }

  lemma GatesAssigned(g: Graph, domain: set<Name>, found: seq<Component>, byActor: map<Name, nat>, gates: seq<Name>,
                      cs: seq<Component>)
    requires Found(Weak(g, domain), found, byActor) && byActor.Keys == domain && InLeastMemberOrder(found)
    requires forall t :: t in gates <==> t in domain && exists s :: Emit(g, s, t) && s !in domain
    requires SameMembers(found, cs)
    requires forall i, t :: 0 <= i < |cs| ==> (t in cs[i].gates <==> t in gates && byActor[t] == i)
    ensures AreComponents(g, domain, cs)
  {
    forall i | 0 <= i < |cs| ensures AreGates(g, cs[i]) {
      forall t ensures t in cs[i].gates <==> t in cs[i].members && exists s :: Emit(g, s, t) && s !in cs[i].members {
        if t in cs[i].members {
          assert t in found[i].members;
          GatesComeFromOutsideDomain(g, domain, cs[i].members, t);
        }
        assert t in byActor ==> t in found[byActor[t]].members;
      }
    }
    forall a | a in domain ensures exists i :: 0 <= i < |cs| && a in cs[i].members {
      assert a in found[byActor[a]].members;
    }
    forall i, j | 0 <= i < j < |cs| ensures cs[i].members !! cs[j].members {
      forall a | a in cs[i].members ensures a !in cs[j].members {
        assert a in found[i].members && byActor[a] == i;
      }
    }
  }
}
