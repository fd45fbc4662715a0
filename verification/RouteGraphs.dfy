/** The graph of actor routes, and the actors each one needs. */
module RouteGraphs {
  import opened Ordering

  /** The contents of a route graph. */
  datatype Graph = Graph(actors: set<Name>, emits: map<Name, set<Name>>, consumes: map<Name, set<Name>>) {

    function EmitsOf(a: Name): set<Name> {
      if a in emits then emits[a] else {}
    }

    function ConsumesOf(a: Name): set<Name> {
      if a in consumes then consumes[a] else {}
    }

    /** Both ends of every relation are actors of the graph. */
    ghost predicate Valid() {
      && (forall a :: a in emits ==> a in actors && emits[a] <= actors)
      && (forall a :: a in consumes ==> a in actors && consumes[a] <= actors)
    }
  }

  ghost predicate Emit(g: Graph, a: Name, b: Name) {
    b in g.EmitsOf(a)
  }

  ghost predicate Consume(g: Graph, a: Name, b: Name) {
    b in g.ConsumesOf(a)
  }

  class RouteGraph {
    var actors: set<Name>
    var emits: map<Name, set<Name>>
    var consumes: map<Name, set<Name>>

    function Value(): Graph
      reads this
    {
      Graph(actors, emits, consumes)
    }

    constructor ()
      ensures Value() == Graph({}, map[], map[])
    {
      actors, emits, consumes := {}, map[], map[];
    }

    constructor Clone(g: RouteGraph)
      ensures Value() == g.Value()
    {
      actors, emits, consumes := g.actors, g.emits, g.consumes;
    }

    method AddActor(actor: Name)
      requires Value().Valid()
      modifies this
      ensures Value().Valid()
      ensures actors == old(actors) + {actor} && emits == old(emits) && consumes == old(consumes)
    {
      actors := actors + {actor};
    }

    method AddEmit(source: Name, target: Name)
      requires Value().Valid()
      modifies this
      ensures Value().Valid()
      ensures actors == old(actors) + {source, target} && consumes == old(consumes)
      ensures forall a, b :: Emit(Value(), a, b) <==> Emit(old(Value()), a, b) || (a == source && b == target)
    {
      actors := actors + {source, target};
      emits := emits[source := Value().EmitsOf(source) + {target}];
    }

    method AddConsume(source: Name, target: Name)
      requires Value().Valid()
      modifies this
      ensures Value().Valid()
      ensures actors == old(actors) + {source, target} && emits == old(emits)
      ensures forall a, b :: Consume(Value(), a, b) <==> Consume(old(Value()), a, b) || (a == source && b == target)
    {
      actors := actors + {source, target};
      consumes := consumes[source := Value().ConsumesOf(source) + {target}];
    }

    /** Add emit edges in both directions between every distinct pair of a subset. */
    method AddEmitClique(subset: set<Name>)
      requires Value().Valid() && subset <= actors
      modifies this
      ensures Value().Valid()
      ensures actors == old(actors) && consumes == old(consumes)
      ensures forall a, b :: Emit(Value(), a, b) <==>
        Emit(old(Value()), a, b) || (a in subset && b in subset && a != b)
    {
      var sources := Sorted(Lexicographic, subset);
      for k := 0 to |sources|
        invariant Value().Valid()
        invariant actors == old(actors) && consumes == old(consumes)
        invariant forall a, b :: Emit(Value(), a, b) <==>
          Emit(old(Value()), a, b) || (a in sources[..k] && b in subset && a != b)
      {
        var source := sources[k];
        assert source in subset;
        assert sources[..k + 1] == sources[..k] + [source];
        emits := emits[source := Value().EmitsOf(source) + (subset - {source})];
      }
      assert sources[..|sources|] == sources;
    }
  }

  // ---------- Reaching and needing ----------

  /** A walk along emit edges. */
  ghost predicate Walk(g: Graph, p: seq<Name>) {
    p != [] && (1 < |p| ==> Emit(g, p[0], p[1]) && Walk(g, p[1..]))
  }

  ghost predicate WalkBetween(g: Graph, a: Name, b: Name, p: seq<Name>) {
    Walk(g, p) && p[0] == a && p[|p| - 1] == b
  }

  /** Reached by at least one emit edge. */
  ghost predicate Reaches(g: Graph, a: Name, b: Name) {
    exists p :: 2 <= |p| && WalkBetween(g, a, b, p)
  }

  /** A direct consume, an actor reached by emits, or a direct consume of one. */
  ghost predicate Needed(g: Graph, a: Name, x: Name) {
    Consume(g, a, x) || exists y :: Reaches(g, a, y) && (x == y || Consume(g, y, x))
  }

  ghost predicate AreNeeds(g: Graph, a: Name, needs: set<Name>) {
    forall x :: x in needs <==> Needed(g, a, x)
  }

  lemma {:induction false} WalksJoin(g: Graph, p: seq<Name>, q: seq<Name>)
    requires Walk(g, p) && Walk(g, q) && p[|p| - 1] == q[0]
    ensures Walk(g, p + q[1..])
    decreases |p|
  {
    if |p| == 1 {
      assert p + q[1..] == q;
    } else {
      WalksJoin(g, p[1..], q);
      assert (p + q[1..])[1..] == p[1..] + q[1..];
    }
  }

  lemma ReachesByEdge(g: Graph, a: Name, b: Name)
    requires Emit(g, a, b)
    ensures Reaches(g, a, b)
  {
    assert WalkBetween(g, a, b, [a, b]);
  }

  lemma ReachesTransitive(g: Graph, a: Name, b: Name, c: Name)
    requires Reaches(g, a, b) && Reaches(g, b, c)
    ensures Reaches(g, a, c)
  {
    var p :| 2 <= |p| && WalkBetween(g, a, b, p);
    var q :| 2 <= |q| && WalkBetween(g, b, c, q);
    WalksJoin(g, p, q);
    assert WalkBetween(g, a, c, p + q[1..]);
  }

  /** The needs of a reached actor are needs. */
  lemma NeedsFollowReach(g: Graph, a: Name, b: Name)
    requires Reaches(g, a, b)
    ensures Needed(g, a, b)
    ensures forall x :: Needed(g, b, x) ==> Needed(g, a, x)
  {
    forall x | Needed(g, b, x) ensures Needed(g, a, x) {
      if !Consume(g, b, x) {
        var y :| Reaches(g, b, y) && (x == y || Consume(g, y, x));
        ReachesTransitive(g, a, b, y);
      }
    }
  }

  /** What a demand has to hold: direct consumes, emit targets, and whatever emit targets demand. */
  ghost predicate IsDemand(g: Graph, demand: (Name, Name) -> bool) {
    && (forall a, x :: Consume(g, a, x) ==> demand(a, x))
    && (forall a, b :: Emit(g, a, b) ==> demand(a, b))
    && (forall a, b, x :: Emit(g, a, b) && demand(b, x) ==> demand(a, x))
  }

  lemma NeedsAreDemand(g: Graph)
    ensures IsDemand(g, (a, x) => Needed(g, a, x))
  {
    forall a, b | Emit(g, a, b)
      ensures Needed(g, a, b) && forall x :: Needed(g, b, x) ==> Needed(g, a, x)
    {
      ReachesByEdge(g, a, b);
      NeedsFollowReach(g, a, b);
    }
  }

  lemma {:induction false} DemandedAlongWalk(g: Graph, demand: (Name, Name) -> bool, p: seq<Name>, x: Name)
    requires IsDemand(g, demand) && 2 <= |p| && Walk(g, p)
    requires x == p[|p| - 1] || demand(p[|p| - 1], x)
    ensures demand(p[0], x)
  {
    if 2 < |p| {
      DemandedAlongWalk(g, demand, p[1..], x);
    }
  }

  /** The needs are the least demand: they lie in every other. */
  lemma NeedsAreLeast(g: Graph, demand: (Name, Name) -> bool, a: Name, x: Name)
    requires IsDemand(g, demand) && Needed(g, a, x)
    ensures demand(a, x)
  {
    if !Consume(g, a, x) {
      var y :| Reaches(g, a, y) && (x == y || Consume(g, y, x));
      var p :| 2 <= |p| && WalkBetween(g, a, y, p);
      DemandedAlongWalk(g, demand, p, x);
    }
  }

  // ---------- Computing needs ----------

  /** What the traversal has established for one expanded actor: a resolved one
      contributed its needs, an unresolved one its consumes and its emit targets. */
  ghost predicate Contributes(g: Graph, lower: seq<Name>, reachable: map<Name, set<Name>>,
                              e: Name, needs: set<Name>, seen: set<Name>) {
    if e in lower then e in reachable && reachable[e] <= needs
    else g.ConsumesOf(e) <= needs && g.EmitsOf(e) <= seen
  }

  ghost predicate Resolved(g: Graph, lower: seq<Name>, reachable: map<Name, set<Name>>) {
    forall a :: a in lower ==> a in reachable && AreNeeds(g, a, reachable[a])
  }

  /** If every expanded actor contributed, everything down a walk from one of them is collected. */
  lemma {:induction false} ContributionsReachFar(
      g: Graph, lower: seq<Name>, reachable: map<Name, set<Name>>, expanded: set<Name>, needs: set<Name>, p: seq<Name>)
    requires Resolved(g, lower, reachable)
    requires expanded <= needs && forall e :: e in expanded ==> Contributes(g, lower, reachable, e, needs, expanded)
    requires Walk(g, p) && p[0] in expanded
    ensures p[|p| - 1] in needs && g.ConsumesOf(p[|p| - 1]) <= needs
    decreases |p|
  {
    var e, y := p[0], p[|p| - 1];
    if e in lower {
      forall x | Consume(g, y, x) ensures x in reachable[e] {
        if 1 < |p| {
          assert WalkBetween(g, e, y, p);
        }
      }
      if 1 < |p| {
        assert WalkBetween(g, e, y, p);
        assert Needed(g, e, y);
      }
    } else if 1 < |p| {
      ContributionsReachFar(g, lower, reachable, expanded, needs, p[1..]);
    }
  }

  /** What holds of the pending stack, the expanded actors and the needs collected so far. */
  ghost predicate Traversing(g: Graph, src: Name, lower: seq<Name>, reachable: map<Name, set<Name>>,
                             needs: set<Name>, expanded: set<Name>, stack: seq<Name>) {
    && expanded <= g.actors && expanded <= needs && g.ConsumesOf(src) <= needs
    && (forall d :: d in stack ==> d in g.actors && Reaches(g, src, d))
    && (forall x :: x in needs ==> Needed(g, src, x))
    && g.EmitsOf(src) <= expanded + Elements(stack)
    && (forall e :: e in expanded ==> Contributes(g, lower, reachable, e, needs, expanded + Elements(stack)))
  }

  lemma LastPopped(stack: seq<Name>)
    requires stack != []
    ensures stack == stack[..|stack| - 1] + [stack[|stack| - 1]] && stack[|stack| - 1] in stack
  {
  }

  /** Before anything is expanded, the direct consumes are collected and the direct targets pending. */
  lemma TraversalStarts(g: Graph, src: Name, lower: seq<Name>, reachable: map<Name, set<Name>>, stack: seq<Name>)
    requires g.Valid() && forall d :: d in stack <==> Emit(g, src, d)
    ensures Traversing(g, src, lower, reachable, g.ConsumesOf(src), {}, stack)
  {
    forall d | d in stack ensures d in g.actors && Reaches(g, src, d) { ReachesByEdge(g, src, d); }
  }

  /** Expanding the popped actor keeps the traversal going. */
  lemma ExpandKeeps(g: Graph, src: Name, lower: seq<Name>, reachable: map<Name, set<Name>>,
                    needs: set<Name>, expanded: set<Name>, stack: seq<Name>, dst: Name,
                    found: set<Name>, targets: seq<Name>)
    requires g.Valid() && Resolved(g, lower, reachable)
    requires Traversing(g, src, lower, reachable, needs, expanded, stack + [dst])
    requires found == if dst in lower then reachable[dst] else g.ConsumesOf(dst)
    requires Elements(targets) == if dst in lower then {} else g.EmitsOf(dst)
    ensures Traversing(g, src, lower, reachable, needs + {dst} + found, expanded + {dst}, stack + targets)
  {
    assert dst in stack + [dst];
    NeedsFollowReach(g, src, dst);
    forall d | d in targets ensures d in g.actors && Reaches(g, src, d) {
      assert d in Elements(targets);
      ReachesByEdge(g, dst, d);
      ReachesTransitive(g, src, dst, d);
    }
    forall x | x in found ensures Needed(g, src, x) {
      assert Needed(g, dst, x);
    }
    PendingElements(stack, dst, targets);
    forall e | e in expanded + {dst}
      ensures Contributes(g, lower, reachable, e, needs + {dst} + found, expanded + {dst} + Elements(stack + targets))
    {
      assert e in expanded ==> Contributes(g, lower, reachable, e, needs, expanded + Elements(stack + [dst]));
    }
  }

  lemma PendingElements(stack: seq<Name>, dst: Name, targets: seq<Name>)
    ensures Elements(stack + [dst]) == Elements(stack) + {dst}
    ensures Elements(stack + targets) == Elements(stack) + Elements(targets)
  {
  }

  /** Popping an actor that is expanded already keeps the traversal going. */
  lemma SkipKeeps(g: Graph, src: Name, lower: seq<Name>, reachable: map<Name, set<Name>>,
                  needs: set<Name>, expanded: set<Name>, stack: seq<Name>, dst: Name)
    requires Traversing(g, src, lower, reachable, needs, expanded, stack + [dst]) && dst in expanded
    ensures Traversing(g, src, lower, reachable, needs + {dst}, expanded, stack)
  {
    assert expanded + Elements(stack + [dst]) == expanded + Elements(stack);
    assert needs + {dst} == needs;
    assert forall d :: d in stack ==> d in stack + [dst];
  }

  /** Whatever is reached from the source has been collected, with its consumes. */
  lemma ReachedIsCollected(g: Graph, src: Name, lower: seq<Name>, reachable: map<Name, set<Name>>,
                           needs: set<Name>, expanded: set<Name>, y: Name)
    requires Resolved(g, lower, reachable) && expanded <= needs && g.EmitsOf(src) <= expanded
    requires forall e :: e in expanded ==> Contributes(g, lower, reachable, e, needs, expanded)
    requires Reaches(g, src, y)
    ensures y in needs && g.ConsumesOf(y) <= needs
  {
    var p :| 2 <= |p| && WalkBetween(g, src, y, p);
    ContributionsReachFar(g, lower, reachable, expanded, needs, p[1..]);
  }

  /** A finished traversal has collected exactly the needs. */
  lemma TraversalIsComplete(g: Graph, src: Name, lower: seq<Name>, reachable: map<Name, set<Name>>,
                            needs: set<Name>, expanded: set<Name>)
    requires Resolved(g, lower, reachable) && Traversing(g, src, lower, reachable, needs, expanded, [])
    ensures AreNeeds(g, src, needs)
  {
    assert expanded + Elements([]) == expanded;
    forall x | Needed(g, src, x) ensures x in needs {
      if !Consume(g, src, x) {
        var y :| Reaches(g, src, y) && (x == y || Consume(g, y, x));
        ReachedIsCollected(g, src, lower, reachable, needs, expanded, y);
      }
    }
  }

  /** The traversal from the `i`-th actor in order, reusing the sets of the actors before it. */
  method NeedsOfActor(g: RouteGraph, order: seq<Name>, i: nat, reachable: map<Name, set<Name>>)
    returns (needs: set<Name>)
    requires g.Value().Valid() && InOrder(Lexicographic, order) && i < |order|
    requires g.actors <= Elements(order)
    requires Resolved(g.Value(), order[..i], reachable)
    ensures AreNeeds(g.Value(), order[i], needs)
  {
    var v := g.Value();
    var src := order[i];
    needs := v.ConsumesOf(src);
    var stack := Sorted(Lexicographic, v.EmitsOf(src));
    var expanded: set<Name> := {};
    TraversalStarts(v, src, order[..i], reachable, stack);
    while stack != []
      invariant Traversing(v, src, order[..i], reachable, needs, expanded, stack)
      decreases v.actors - expanded, |stack|
    {
      var dst := stack[|stack| - 1];
      LastPopped(stack);
      stack := stack[..|stack| - 1];
      if dst in expanded {
        SkipKeeps(v, src, order[..i], reachable, needs, expanded, stack, dst);
        needs := needs + {dst};
        continue;
      }
      IsLower(order, i, dst);
      var found, targets := v.ConsumesOf(dst), [];
      if Before(Lexicographic, dst, src) {
        found := reachable[dst];
      } else {
        targets := Sorted(Lexicographic, v.EmitsOf(dst));
      }
      ExpandKeeps(v, src, order[..i], reachable, needs, expanded, stack, dst, found, targets);
      needs := needs + {dst} + found;
      expanded := expanded + {dst};
      stack := stack + targets;
    }
    TraversalIsComplete(v, src, order[..i], reachable, needs, expanded);
  }

  /** In the sorted list of actors, the lower ones are those before. */
  lemma IsLower(order: seq<Name>, i: nat, dst: Name)
    requires InOrder(Lexicographic, order) && i < |order| && dst in order
    ensures Before(Lexicographic, dst, order[i]) <==> dst in order[..i]
  {
    var j :| 0 <= j < |order| && order[j] == dst;
    PositionFollowsOrder(Lexicographic, order, j, i);
    forall k | 0 <= k < i ensures Before(Lexicographic, order[k], order[i]) {
      PositionFollowsOrder(Lexicographic, order, k, i);
    }
  }

  /** The needs of every actor. */
  method Needs(g: RouteGraph) returns (reachable: map<Name, set<Name>>)
    requires g.Value().Valid()
    ensures reachable.Keys == g.actors
    ensures forall a :: a in g.actors ==> AreNeeds(g.Value(), a, reachable[a])
  {
    reachable := map[];
    var order := Sorted(Lexicographic, g.actors);
    for i := 0 to |order|
      invariant reachable.Keys == Elements(order[..i])
      invariant Resolved(g.Value(), order[..i], reachable)
    {
      assert order[..i + 1] == order[..i] + [order[i]];
      var needs := NeedsOfActor(g, order, i, reachable);
      reachable := reachable[order[i] := needs];
    }
    assert order[..|order|] == order;
  }
}
