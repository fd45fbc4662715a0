/** Building the commitment forest, and where its actors and families end up. */
module ForestBuilding {
  import opened Wrappers
  import opened Ordering
  import opened Forests
  import opened Families

  // ---------- The forest, independently of how the families are listed ----------

  ghost function FamilySet(families: Families): set<seq<Name>> {
    set f | f in families
  }

  function Leaves(family: seq<Name>): seq<CommitmentNode> {
    seq(|family|, i requires 0 <= i < |family| => Leaf(family[i]))
  }

  /** What an actor adds after the actors before it: its leaf, its family's branch
      if it is the first of the family, or nothing. */
  ghost function RootAt(earlier: seq<Name>, families: set<seq<Name>>, actor: Name): seq<CommitmentNode> {
    if exists f :: f in families && actor in f then
      var f :| f in families && actor in f;
      if exists b :: b in earlier && b in f then [] else [Branch(Leaves(f))]
    else [Leaf(actor)]
  }

  ghost function RootsOver(order: seq<Name>, families: set<seq<Name>>): seq<CommitmentNode>
    decreases |order|
  {
    if order == [] then []
    else
      var earlier := order[..|order| - 1];
      RootsOver(earlier, families) + RootAt(earlier, families, order[|order| - 1])
  }

  ghost predicate DisjointFamilies(families: set<seq<Name>>) {
    forall f, h, a :: f in families && h in families && a in f && a in h ==> f == h
  }

  /** Every family with a member in the order has a branch among the roots. */
  lemma {:induction false} RootsHoldFamily(order: seq<Name>, families: set<seq<Name>>, f: seq<Name>, a: Name)
    returns (r: nat)
    requires DisjointFamilies(families) && f in families && a in f && a in order
    ensures r < |RootsOver(order, families)| && RootsOver(order, families)[r] == Branch(Leaves(f))
    decreases |order|
  {
    var earlier, last := order[..|order| - 1], order[|order| - 1];
    if b :| b in earlier && b in f {
      r := RootsHoldFamily(earlier, families, f, b);
    } else {
      assert order == earlier + [last];
      r := |RootsOver(earlier, families)|;
      assert RootAt(earlier, families, last) == [Branch(Leaves(f))];
    }
  }

  // ---------- The roots, and the actors that emit them ----------

  ghost predicate Standalone(families: set<seq<Name>>, a: Name) {
    forall f :: f in families ==> a !in f
  }

  /** Distinct known actors in each family, no family empty, and no actor in two of them. */
  ghost predicate GoodFamilies(actors: set<Name>, families: set<seq<Name>>) {
    && DisjointFamilies(families)
    && forall f :: f in families ==> f != [] && Distinct(f) && Elements(f) <= actors
  }

  ghost predicate IsBranchOf(family: seq<Name>, node: CommitmentNode) {
    node.Branch? && |node.children| == |family|
    && forall j :: 0 <= j < |family| ==> node.children[j] == Leaf(family[j])
  }

  /** The `i`-th actor emits the family's branch: it is the first member in the order. */
  ghost predicate EmitsBranch(order: seq<Name>, i: nat, family: seq<Name>, node: CommitmentNode)
    requires i < |order|
  {
    order[i] in family && (forall j :: 0 <= j < i ==> order[j] !in family) && IsBranchOf(family, node)
  }

  /** The `i`-th actor emits the node: its own leaf, when it is in no family, or its family's branch. */
  ghost predicate EmittedAt(order: seq<Name>, families: set<seq<Name>>, i: nat, node: CommitmentNode) {
    && i < |order|
    && if Standalone(families, order[i]) then node == Leaf(order[i])
       else exists f :: f in families && EmitsBranch(order, i, f, node)
  }

  lemma EmittedLater(order: seq<Name>, last: Name, families: set<seq<Name>>, i: nat, node: CommitmentNode)
    requires EmittedAt(order, families, i, node)
    ensures EmittedAt(order + [last], families, i, node)
  {
    if !Standalone(families, order[i]) {
      var f :| f in families && EmitsBranch(order, i, f, node);
      assert EmitsBranch(order + [last], i, f, node);
    }
  }

  /** The next actor adds at most one root, which it emits. */
  lemma NextRootIsEmitted(earlier: seq<Name>, last: Name, families: set<seq<Name>>)
    ensures |RootAt(earlier, families, last)| <= 1
    ensures RootAt(earlier, families, last) != [] ==>
              EmittedAt(earlier + [last], families, |earlier|, RootAt(earlier, families, last)[0])
  {
    var order, roots := earlier + [last], RootAt(earlier, families, last);
    if roots != [] && !Standalone(families, last) {
      var f :| f in families && last in f && roots == [Branch(Leaves(f))] && !exists b :: b in earlier && b in f;
      forall j | 0 <= j < |earlier| ensures order[j] !in f {
        assert order[j] in earlier;
      }
      assert roots[0] == Branch(Leaves(f)) && IsBranchOf(f, Branch(Leaves(f)));
      assert EmitsBranch(order, |earlier|, f, roots[0]);
    }
  }

  /** The roots in order, each with the actor that emits it; the emitting actors ascend. */
  lemma {:induction false} RootsAreEmittedInOrder(order: seq<Name>, families: set<seq<Name>>)
    returns (emitters: seq<nat>)
    ensures |emitters| == |RootsOver(order, families)|
    ensures forall r :: 0 <= r < |emitters| ==> EmittedAt(order, families, emitters[r], RootsOver(order, families)[r])
    ensures forall r, s :: 0 <= r < s < |emitters| ==> emitters[r] < emitters[s]
    decreases |order|
  {
    if order == [] {
      emitters := [];
    } else {
      var earlier, last := order[..|order| - 1], order[|order| - 1];
      assert order == earlier + [last];
      emitters := RootsAreEmittedInOrder(earlier, families);
      forall r | 0 <= r < |emitters| ensures EmittedAt(order, families, emitters[r], RootsOver(earlier, families)[r]) {
        EmittedLater(earlier, last, families, emitters[r], RootsOver(earlier, families)[r]);
      }
      NextRootIsEmitted(earlier, last, families);
      if RootAt(earlier, families, last) != [] {
        emitters := emitters + [|earlier|];
      }
    }
  }

  /** The actors at a root: that of a leaf, or the members of the family a branch is for. */
  ghost predicate StandsFor(families: set<seq<Name>>, node: CommitmentNode, actors: set<Name>) {
    match node
    case Leaf(a) => Standalone(families, a) && actors == {a}
    case Branch(_) => exists f :: f in families && IsBranchOf(f, node) && actors == Elements(f)
  }

  /** An emitted node stands for actors of which the emitting one is the least. */
  lemma EmitterIsLeast(order: seq<Name>, families: set<seq<Name>>, i: nat, node: CommitmentNode)
    returns (actors: set<Name>)
    requires GoodFamilies(Elements(order), families) && InOrder(Lexicographic, order)
    requires EmittedAt(order, families, i, node)
    ensures StandsFor(families, node, actors) && IsFirst(Lexicographic, actors, order[i])
  {
    if Standalone(families, order[i]) {
      return {order[i]};
    }
    var f :| f in families && EmitsBranch(order, i, f, node);
    actors := Elements(f);
    forall y | y in actors && y != order[i] ensures Before(Lexicographic, order[i], y) {
      assert y in Elements(order);
      var j :| 0 <= j < |order| && order[j] == y;
      assert Before(Lexicographic, order[i], order[j]);
    }
  }

  /** Nodes that stand for a common actor stand for the same actors. */
  lemma RootsMeet(families: set<seq<Name>>, m: CommitmentNode, n: CommitmentNode, x: set<Name>, y: set<Name>, a: Name)
    requires DisjointFamilies(families) && StandsFor(families, m, x) && StandsFor(families, n, y) && a in x && a in y
    ensures x == y
  {
    if m.Branch? && n.Branch? {
      var f :| f in families && IsBranchOf(f, m) && x == Elements(f);
      var h :| h in families && IsBranchOf(h, n) && y == Elements(h);
      assert f == h;
    }
  }

  /** What two roots stand for, given the actors that emit them, the first before the second. */
  lemma EmittedApart(order: seq<Name>, families: set<seq<Name>>, i: nat, m: CommitmentNode, j: nat, n: CommitmentNode)
    returns (x: set<Name>, y: set<Name>)
    requires GoodFamilies(Elements(order), families) && InOrder(Lexicographic, order) && i < j
    requires EmittedAt(order, families, i, m) && EmittedAt(order, families, j, n)
    ensures StandsFor(families, m, x) && StandsFor(families, n, y) && x != {} && y != {} && x !! y
    ensures Before(Lexicographic, First(Lexicographic, x), First(Lexicographic, y))
  {
    x := EmitterIsLeast(order, families, i, m);
    y := EmitterIsLeast(order, families, j, n);
    FirstIs(Lexicographic, x, order[i]);
    FirstIs(Lexicographic, y, order[j]);
    PositionFollowsOrder(Lexicographic, order, i, j);
    if a :| a in x && a in y {
      RootsMeet(families, m, n, x, y, a);
    }
  }

  /** Roots stand in the order of their least actors. */
  lemma RootsFollowLeastActors(actors: set<Name>, families: set<seq<Name>>, r: nat, s: nat)
    returns (x: set<Name>, y: set<Name>)
    requires GoodFamilies(actors, families)
    requires r < s < |RootsOver(Sorted(Lexicographic, actors), families)|
    ensures var roots := RootsOver(Sorted(Lexicographic, actors), families);
      StandsFor(families, roots[r], x) && StandsFor(families, roots[s], y)
    ensures x != {} && y != {} && x !! y
    ensures Before(Lexicographic, First(Lexicographic, x), First(Lexicographic, y))
  {
    var order := Sorted(Lexicographic, actors);
    var roots := RootsOver(order, families);
    assert Elements(order) == actors;
    var emitters := RootsAreEmittedInOrder(order, families);
    x, y := EmittedApart(order, families, emitters[r], roots[r], emitters[s], roots[s]);
  }

  /** Every actor stands at some root. */
  lemma {:induction false} EveryActorHasRoot(order: seq<Name>, families: set<seq<Name>>, a: Name)
    returns (r: nat, actors: set<Name>)
    requires DisjointFamilies(families) && a in order
    ensures r < |RootsOver(order, families)| && StandsFor(families, RootsOver(order, families)[r], actors) && a in actors
    decreases |order|
  {
    if f :| f in families && a in f {
      r := RootsHoldFamily(order, families, f, a);
      assert IsBranchOf(f, Branch(Leaves(f)));
      return r, Elements(f);
    }
    var earlier, last := order[..|order| - 1], order[|order| - 1];
    assert order == earlier + [last];
    if a == last {
      assert RootAt(earlier, families, last) == [Leaf(a)];
      return |RootsOver(earlier, families)|, {a};
    }
    r, actors := EveryActorHasRoot(earlier, families, a);
  }

  // ---------- Where things are ----------

  datatype Locations = Locations(actorPaths: map<Name, NodePath>, familyPaths: map<nat, NodePath>)

  ghost predicate RootIs(roots: seq<CommitmentNode>, path: NodePath, node: CommitmentNode) {
    |path| == 1 && path[0] < |roots| && roots[path[0]] == node
  }

  /** Families are emitted with their first actor. */
  ghost predicate EmittedBy(done: seq<Name>, byActor: map<Name, nat>, emitted: set<nat>) {
    && (forall a :: a in done && a in byActor ==> byActor[a] in emitted)
    && (forall k :: k in emitted ==> exists a :: a in done && a in byActor && byActor[a] == k)
  }

  ghost predicate StandaloneActorsAt(roots: seq<CommitmentNode>, done: seq<Name>, byActor: map<Name, nat>,
                                     actorPaths: map<Name, NodePath>) {
    forall a :: a in done && a !in byActor ==> a in actorPaths && RootIs(roots, actorPaths[a], Leaf(a))
  }

  ghost predicate FamilyAt(roots: seq<CommitmentNode>, family: seq<Name>, branch: NodePath,
                           actorPaths: map<Name, NodePath>) {
    && RootIs(roots, branch, Branch(Leaves(family)))
    && forall j: nat :: j < |family| ==> family[j] in actorPaths && actorPaths[family[j]] == Child(branch, j)
  }

  ghost predicate FamiliesAt(roots: seq<CommitmentNode>, families: Families, loc: Locations) {
    && (forall k :: k in loc.familyPaths ==> k < |families|)
    && forall k {:trigger FamilyAt(roots, families[k], loc.familyPaths[k], loc.actorPaths)} ::
         k in loc.familyPaths ==> FamilyAt(roots, families[k], loc.familyPaths[k], loc.actorPaths)
  }

  /** A root is a placed standalone actor's leaf or a placed family's branch. */
  ghost predicate RootKnown(node: CommitmentNode, r: nat, byActor: map<Name, nat>, loc: Locations) {
    || (node.Leaf? && node.actor in loc.actorPaths && node.actor !in byActor && loc.actorPaths[node.actor] == Root(r))
    || (node.Branch? && exists k :: k in loc.familyPaths && loc.familyPaths[k] == Root(r))
  }

  ghost predicate RootsKnown(roots: seq<CommitmentNode>, byActor: map<Name, nat>, loc: Locations) {
    forall r: nat :: r < |roots| ==> RootKnown(roots[r], r, byActor, loc)
  }

  /** Every actor has one leaf and every family one branch, at the recorded paths, and
      the forest has no other roots. */
  ghost predicate IsLocated(f: CommitmentForest, actors: set<Name>, families: Families, byActor: map<Name, nat>,
                            loc: Locations) {
    && loc.actorPaths.Keys == actors && byActor.Keys <= actors
    && (forall k :: k in loc.familyPaths <==> 0 <= k < |families|)
    && (forall a :: a in actors && a !in byActor ==> RootIs(f.roots, loc.actorPaths[a], Leaf(a)))
    && FamiliesAt(f.roots, families, loc)
    && RootsKnown(f.roots, byActor, loc)
  }

  /** What holds while the actors `done` have been placed. */
  ghost predicate Placing(roots: seq<CommitmentNode>, done: seq<Name>, families: Families, byActor: map<Name, nat>,
                          emitted: set<nat>, loc: Locations) {
    && EmittedBy(done, byActor, emitted) && loc.familyPaths.Keys == emitted
    && (forall a :: a in loc.actorPaths ==> a in byActor || a in done)
    && StandaloneActorsAt(roots, done, byActor, loc.actorPaths)
    && FamiliesAt(roots, families, loc)
    && RootsKnown(roots, byActor, loc)
  }

  lemma RootAtByIndex(actors: set<Name>, families: Families, byActor: map<Name, nat>, done: seq<Name>, actor: Name)
    requires FamiliesOk(actors, families) && IsFamilyIndex(families, byActor)
    ensures RootAt(done, FamilySet(families), actor) ==
      if actor !in byActor then [Leaf(actor)]
      else if exists b :: b in done && b in byActor && byActor[b] == byActor[actor] then []
      else [Branch(Leaves(families[byActor[actor]]))]
  {
    if actor in byActor {
      var family := families[byActor[actor]];
      assert family in FamilySet(families) && actor in family;
      assert forall f :: f in FamilySet(families) && actor in f ==> f == family;
      assert forall b :: b in family <==> b in byActor && byActor[b] == byActor[actor];
    }
  }

  lemma EmittedOneMore(done: seq<Name>, byActor: map<Name, nat>, emitted: set<nat>, actor: Name)
    requires EmittedBy(done, byActor, emitted)
    ensures EmittedBy(done + [actor], byActor, if actor in byActor then emitted + {byActor[actor]} else emitted)
  {
    assert actor in done + [actor];
    forall k | k in emitted ensures exists a :: a in done + [actor] && a in byActor && byActor[a] == k {
      var a :| a in done && a in byActor && byActor[a] == k;
      assert a in done + [actor];
    }
  }

  ghost predicate KeepsPath(before: map<Name, NodePath>, after: map<Name, NodePath>, actor: Name) {
    actor in before && actor in after && after[actor] == before[actor]
  }

  lemma FamiliesStay(roots: seq<CommitmentNode>, roots': seq<CommitmentNode>, families: Families, loc: Locations,
                     actorPaths: map<Name, NodePath>)
    requires FamiliesAt(roots, families, loc) && roots <= roots'
    requires forall k, j: nat :: k in loc.familyPaths && j < |families[k]| ==>
      KeepsPath(loc.actorPaths, actorPaths, families[k][j])
    ensures FamiliesAt(roots', families, loc.(actorPaths := actorPaths))
  {
    forall k | k in loc.familyPaths ensures FamilyAt(roots', families[k], loc.familyPaths[k], actorPaths) {
      assert FamilyAt(roots, families[k], loc.familyPaths[k], loc.actorPaths);
    }
  }

  lemma StandaloneActorsStay(roots: seq<CommitmentNode>, roots': seq<CommitmentNode>, done: seq<Name>, actor: Name,
                             byActor: map<Name, nat>, actorPaths: map<Name, NodePath>, actorPaths': map<Name, NodePath>)
    requires StandaloneActorsAt(roots, done, byActor, actorPaths) && roots <= roots' && actor in byActor
    requires forall a :: a in actorPaths && a !in byActor ==> a in actorPaths' && actorPaths'[a] == actorPaths[a]
    ensures StandaloneActorsAt(roots', done + [actor], byActor, actorPaths')
  {
  }

  lemma RootsStayKnown(roots: seq<CommitmentNode>, byActor: map<Name, nat>, loc: Locations, loc': Locations)
    requires RootsKnown(roots, byActor, loc)
    requires forall a :: a in loc.actorPaths && a !in byActor ==> a in loc'.actorPaths && loc'.actorPaths[a] == loc.actorPaths[a]
    requires forall k :: k in loc.familyPaths ==> k in loc'.familyPaths && loc'.familyPaths[k] == loc.familyPaths[k]
    ensures RootsKnown(roots, byActor, loc')
  {
    forall r: nat | r < |roots| ensures RootKnown(roots[r], r, byActor, loc') {
      assert RootKnown(roots[r], r, byActor, loc);
      if roots[r].Branch? {
        var k :| k in loc.familyPaths && loc.familyPaths[k] == Root(r);
        assert k in loc'.familyPaths && loc'.familyPaths[k] == Root(r);
      }
    }
  }

  lemma RootAppended(roots: seq<CommitmentNode>, node: CommitmentNode, byActor: map<Name, nat>, loc: Locations)
    requires RootsKnown(roots, byActor, loc) && RootKnown(node, |roots|, byActor, loc)
    ensures RootsKnown(roots + [node], byActor, loc)
  {
    var roots' := roots + [node];
    forall r: nat | r < |roots'| ensures RootKnown(roots'[r], r, byActor, loc) {
      assert r < |roots| ==> roots'[r] == roots[r];
    }
  }

  lemma StandalonePlaced(roots: seq<CommitmentNode>, done: seq<Name>, families: Families, byActor: map<Name, nat>,
                         emitted: set<nat>, loc: Locations, actor: Name)
    requires IsFamilyIndex(families, byActor)
    requires Placing(roots, done, families, byActor, emitted, loc) && actor !in byActor && actor !in done
    ensures Placing(roots + [Leaf(actor)], done + [actor], families, byActor, emitted,
              loc.(actorPaths := loc.actorPaths[actor := Root(|roots|)]))
  {
    var loc' := loc.(actorPaths := loc.actorPaths[actor := Root(|roots|)]);
    EmittedOneMore(done, byActor, emitted, actor);
    forall k, j: nat | k in loc.familyPaths && j < |families[k]|
      ensures KeepsPath(loc.actorPaths, loc'.actorPaths, families[k][j])
    {
      assert FamilyAt(roots, families[k], loc.familyPaths[k], loc.actorPaths) && families[k][j] in families[k];
    }
    FamiliesStay(roots, roots + [Leaf(actor)], families, loc, loc'.actorPaths);
    StandaloneActorAdded(roots, done, actor, byActor, loc.actorPaths);
    RootsStayKnown(roots, byActor, loc, loc');
    RootAppended(roots, Leaf(actor), byActor, loc');
    assert forall a :: a in loc'.actorPaths ==> a in byActor || a in done + [actor];
  }

  lemma StandaloneActorAdded(roots: seq<CommitmentNode>, done: seq<Name>, actor: Name, byActor: map<Name, nat>,
                             actorPaths: map<Name, NodePath>)
    requires StandaloneActorsAt(roots, done, byActor, actorPaths) && actor !in done
    ensures StandaloneActorsAt(roots + [Leaf(actor)], done + [actor], byActor, actorPaths[actor := Root(|roots|)])
  {
    forall a | a in done + [actor] && a !in byActor
      ensures a in actorPaths[actor := Root(|roots|)] && RootIs(roots + [Leaf(actor)], actorPaths[actor := Root(|roots|)][a], Leaf(a))
    {
      if a != actor { assert RootIs(roots, actorPaths[a], Leaf(a)); }
    }
  }

  /** The paths of a family have been recorded below its branch, and nothing else changed. */
  ghost predicate FamilyRecorded(actorPaths: map<Name, NodePath>, family: seq<Name>, branch: NodePath,
                                 actorPaths': map<Name, NodePath>) {
    && (forall a :: a in actorPaths' <==> a in actorPaths || a in family)
    && (forall a :: a in actorPaths && a !in family ==> actorPaths'[a] == actorPaths[a])
    && (forall j: nat :: j < |family| ==> actorPaths'[family[j]] == Child(branch, j))
  }

  lemma FamilyPathsPlaced(roots: seq<CommitmentNode>, families: Families, byActor: map<Name, nat>, k: nat,
                          loc: Locations, loc': Locations, node: CommitmentNode)
    requires IsFamilyIndex(families, byActor) && k < |families| && k !in loc.familyPaths
    requires FamiliesAt(roots, families, loc) && node == Branch(Leaves(families[k]))
    requires loc'.familyPaths == loc.familyPaths[k := Root(|roots|)]
    requires FamilyRecorded(loc.actorPaths, families[k], Root(|roots|), loc'.actorPaths)
    ensures FamiliesAt(roots + [node], families, loc')
  {
    forall l, j: nat | l in loc.familyPaths && j < |families[l]|
      ensures KeepsPath(loc.actorPaths, loc'.actorPaths, families[l][j])
    {
      assert FamilyAt(roots, families[l], loc.familyPaths[l], loc.actorPaths) && families[l][j] in families[l];
      assert byActor[families[l][j]] == l;
    }
    FamiliesStay(roots, roots + [node], families, loc, loc'.actorPaths);
    assert FamilyAt(roots + [node], families[k], Root(|roots|), loc'.actorPaths);
    assert forall l :: l in loc.familyPaths ==> FamilyAt(roots + [node], families[l], loc.familyPaths[l], loc'.actorPaths);
  }

  lemma OthersStay(families: Families, byActor: map<Name, nat>, k: nat,
                   actorPaths: map<Name, NodePath>, branch: NodePath, actorPaths': map<Name, NodePath>)
    requires IsFamilyIndex(families, byActor) && k < |families| && FamilyRecorded(actorPaths, families[k], branch, actorPaths')
    ensures forall a :: a in actorPaths && a !in byActor ==> a in actorPaths' && actorPaths'[a] == actorPaths[a]
    ensures forall a :: a in families[k] ==> a in byActor
  {
  }

  lemma FamilyPlaced(roots: seq<CommitmentNode>, done: seq<Name>, families: Families, byActor: map<Name, nat>,
                     emitted: set<nat>, loc: Locations, actor: Name, loc': Locations, node: CommitmentNode)
    requires IsFamilyIndex(families, byActor) && Placing(roots, done, families, byActor, emitted, loc)
    requires actor in byActor && byActor[actor] !in emitted
    requires FamilyRecorded(loc.actorPaths, families[byActor[actor]], Root(|roots|), loc'.actorPaths)
    requires loc'.familyPaths == loc.familyPaths[byActor[actor] := Root(|roots|)]
    requires node == Branch(Leaves(families[byActor[actor]]))
    ensures Placing(roots + [node], done + [actor], families, byActor, emitted + {byActor[actor]}, loc')
  {
    var k := byActor[actor];
    EmittedOneMore(done, byActor, emitted, actor);
    FamilyPathsPlaced(roots, families, byActor, k, loc, loc', node);
    OthersStay(families, byActor, k, loc.actorPaths, Root(|roots|), loc'.actorPaths);
    StandaloneActorsStay(roots, roots + [node], done, actor, byActor, loc.actorPaths, loc'.actorPaths);
    RootsStayKnown(roots, byActor, loc, loc');
    assert k in loc'.familyPaths && loc'.familyPaths[k] == Root(|roots|);
    RootAppended(roots, node, byActor, loc');
    forall a | a in loc'.actorPaths ensures a in byActor || a in done + [actor] {
    }
  }

  lemma SiblingSkipped(roots: seq<CommitmentNode>, done: seq<Name>, families: Families, byActor: map<Name, nat>,
                       emitted: set<nat>, loc: Locations, actor: Name)
    requires Placing(roots, done, families, byActor, emitted, loc) && actor in byActor && byActor[actor] in emitted
    ensures Placing(roots, done + [actor], families, byActor, emitted, loc)
  {
    EmittedOneMore(done, byActor, emitted, actor);
    assert emitted + {byActor[actor]} == emitted;
  }

  /** Record the leaf paths of a family below its branch. */
  method RecordFamily(actorPaths: map<Name, NodePath>, family: seq<Name>, branch: NodePath)
    returns (actorPaths': map<Name, NodePath>, children: seq<CommitmentNode>)
    requires Distinct(family)
    ensures children == Leaves(family)
    ensures FamilyRecorded(actorPaths, family, branch, actorPaths')
  {
    actorPaths', children := actorPaths, [];
    for j := 0 to |family|
      invariant children == Leaves(family)[..j]
      invariant forall a :: a in actorPaths' <==> a in actorPaths || a in family[..j]
      invariant forall a :: a in actorPaths && a !in family[..j] ==> actorPaths'[a] == actorPaths[a]
      invariant forall i: nat :: i < j ==> actorPaths'[family[i]] == Child(branch, i)
    {
      assert family[..j + 1] == family[..j] + [family[j]];
      actorPaths' := actorPaths'[family[j] := Child(branch, j)];
      children := children + [Leaf(family[j])];
    }
    assert family[..|family|] == family;
  }

  method BuildCommitmentForest(actors: set<Name>, families: Families, byActor: map<Name, nat>)
    returns (f: CommitmentForest, loc: Locations)
    requires FamiliesOk(actors, families) && IsFamilyIndex(families, byActor)
    ensures f.roots == RootsOver(Sorted(Lexicographic, actors), FamilySet(families))
    ensures IsLocated(f, actors, families, byActor, loc)
  {
    var roots: seq<CommitmentNode> := [];
    loc := Locations(map[], map[]);
    var emitted: set<nat> := {};
    var order := Sorted(Lexicographic, actors);
    for i := 0 to |order|
      invariant roots == RootsOver(order[..i], FamilySet(families))
      invariant Placing(roots, order[..i], families, byActor, emitted, loc)
    {
      var actor := order[i];
      OneMoreInOrder(order, i);
      RootAtByIndex(actors, families, byActor, order[..i], actor);
      if actor !in byActor {
        StandalonePlaced(roots, order[..i], families, byActor, emitted, loc, actor);
        loc := loc.(actorPaths := loc.actorPaths[actor := Root(|roots|)]);
        roots := roots + [Leaf(actor)];
        continue;
      }
      var k := byActor[actor];
      if k in emitted {
        SiblingSkipped(roots, order[..i], families, byActor, emitted, loc, actor);
        continue;
      }
      var actorPaths, children := RecordFamily(loc.actorPaths, families[k], Root(|roots|));
      var loc' := Locations(actorPaths, loc.familyPaths[k := Root(|roots|)]);
      FamilyPlaced(roots, order[..i], families, byActor, emitted, loc, actor, loc', Branch(children));
      emitted := emitted + {k};
      loc := loc';
      roots := roots + [Branch(children)];
    }
    assert order[..|order|] == order;
    f := CommitmentForest(roots);
    AllPlaced(f, actors, order, families, byActor, emitted, loc);
  }

  lemma OneMoreInOrder(order: seq<Name>, i: nat)
    requires InOrder(Lexicographic, order) && i < |order|
    ensures order[..i + 1] == order[..i] + [order[i]] && order[i] !in order[..i] && order[i] in order
    ensures order[..i + 1][..|order[..i + 1]| - 1] == order[..i]
  {
    EarlierMembersDiffer(order, i);
  }

  lemma AllPlaced(f: CommitmentForest, actors: set<Name>, order: seq<Name>, families: Families, byActor: map<Name, nat>,
                  emitted: set<nat>, loc: Locations)
    requires FamiliesOk(actors, families) && IsFamilyIndex(families, byActor)
    requires forall a :: a in order <==> a in actors
    requires Placing(f.roots, order, families, byActor, emitted, loc)
    ensures IsLocated(f, actors, families, byActor, loc)
  {
    AllEmitted(actors, order, families, byActor, emitted);
    forall a | a in actors ensures a in loc.actorPaths {
      if a in byActor {
        FamilyActorPlaced(f.roots, families, byActor, loc, a);
      }
    }
  }

  lemma AllEmitted(actors: set<Name>, order: seq<Name>, families: Families, byActor: map<Name, nat>, emitted: set<nat>)
    requires FamiliesOk(actors, families) && IsFamilyIndex(families, byActor)
    requires (forall a :: a in order <==> a in actors) && EmittedBy(order, byActor, emitted)
    ensures forall k :: k in emitted <==> 0 <= k < |families|
  {
    forall k | 0 <= k < |families| ensures k in emitted {
      var a := families[k][0];
      assert a in families[k] && a in order;
    }
  }

  lemma FamilyActorPlaced(roots: seq<CommitmentNode>, families: Families, byActor: map<Name, nat>, loc: Locations,
                          a: Name)
    requires IsFamilyIndex(families, byActor) && FamiliesAt(roots, families, loc) && a in byActor && byActor[a] in loc.familyPaths
    ensures a in loc.actorPaths
  {
    var k := byActor[a];
    assert FamilyAt(roots, families[k], loc.familyPaths[k], loc.actorPaths);
    var j :| 0 <= j < |families[k]| && families[k][j] == a;
  }

  lemma FamilyChild(f: CommitmentForest, actors: set<Name>, families: Families, byActor: map<Name, nat>, loc: Locations,
                    k: nat, j: nat)
    requires IsLocated(f, actors, families, byActor, loc) && k < |families|
    ensures f.Lookup(loc.familyPaths[k]) == Some(Branch(Leaves(families[k])))
    ensures f.Lookup(Child(loc.familyPaths[k], j)) == if j < |families[k]| then Some(Leaf(families[k][j])) else None
    ensures j < |families[k]| ==> families[k][j] in actors && loc.actorPaths[families[k][j]] == Child(loc.familyPaths[k], j)
  {
    assert FamilyAt(f.roots, families[k], loc.familyPaths[k], loc.actorPaths);
    f.LookupChild(loc.familyPaths[k], j);
  }

  /** An existing path is a standalone actor's leaf, a family's branch, or a child of one. */
  lemma {:induction false} PathKinds(f: CommitmentForest, actors: set<Name>, families: Families,
                                     byActor: map<Name, nat>,
                                     loc: Locations, p: NodePath)
    requires IsLocated(f, actors, families, byActor, loc) && f.Lookup(p).Some?
    ensures |p| <= 2
    ensures |p| == 1 ==> RootKnown(f.Lookup(p).value, p[0], byActor, loc) && p == Root(p[0])
    ensures |p| == 2 ==> exists k: nat, j: nat ::
      k < |families| && j < |families[k]| && loc.familyPaths[k] == Parent(p) && p == Child(loc.familyPaths[k], j)
    decreases |p|
  {
    if |p| == 1 {
      assert RootKnown(f.roots[p[0]], p[0], byActor, loc);
    } else {
      var parent := Parent(p);
      f.LookupPrefix(parent, p);
      PathKinds(f, actors, families, byActor, loc, parent);
      assert p == Child(parent, p[|p| - 1]);
      if |p| == 2 {
        var k :| k in loc.familyPaths && loc.familyPaths[k] == Root(parent[0]);
        FamilyChild(f, actors, families, byActor, loc, k, p[1]);
      } else {
        var k: nat, j: nat :| k < |families| && j < |families[k]| && parent == Child(loc.familyPaths[k], j);
        FamilyChild(f, actors, families, byActor, loc, k, j);
      }
    }
  }

  /** Every actor has exactly one leaf, at its recorded path, and there are no other leaves. */
  lemma EachActorHasOneLeaf(f: CommitmentForest, actors: set<Name>, families: Families, byActor: map<Name, nat>,
                            loc: Locations, p: NodePath, a: Name)
    requires IsLocated(f, actors, families, byActor, loc) && IsFamilyIndex(families, byActor)
    ensures f.Lookup(p) == Some(Leaf(a)) <==> a in actors && p == loc.actorPaths[a]
  {
    if f.Lookup(p) == Some(Leaf(a)) {
      PathKinds(f, actors, families, byActor, loc, p);
      if |p| == 2 {
        var k: nat, j: nat :| k < |families| && j < |families[k]| && p == Child(loc.familyPaths[k], j);
        FamilyChild(f, actors, families, byActor, loc, k, j);
      }
    } else if a in actors && a in byActor {
      var k := byActor[a];
      var j: nat :| j < |families[k]| && families[k][j] == a;
      FamilyChild(f, actors, families, byActor, loc, k, j);
    }
  }
}
