/** The cut an actor carries, as a function of what it needs and what it must hold open. */
module Cuts {
  import opened Wrappers
  import opened Ordering
  import opened Forests
  import opened Families
  import opened ForestBuilding
  import opened Transitions
  import opened Replay

  // ---------- What the cut is ----------

  /** The root is the leaf of one of the actors, or a branch with such a leaf. */
  ghost predicate Holds(node: CommitmentNode, actors: set<Name>) {
    match node
    case Leaf(a) => a in actors
    case Branch(children) => exists i :: 0 <= i < |children| && children[i].Leaf? && children[i].actor in actors
  }

  /** A standalone actor is selected when needed or exposed; a family is open when one of
      its members is exposed, packed when one is only needed, and absent otherwise. */
  ghost predicate Selected(f: CommitmentForest, needs: set<Name>, exposed: set<Name>, p: NodePath) {
    && f.Lookup(p).Some?
    && (if |p| == 1 then
          match f.Lookup(p).value
          case Leaf(_) => Holds(f.Lookup(p).value, needs + exposed)
          case Branch(_) => Holds(f.Lookup(p).value, needs) && !Holds(f.Lookup(p).value, exposed)
        else
          |p| == 2 && f.IsBranch(Root(p[0])) && Holds(f.Lookup(Root(p[0])).value, exposed))
  }

  ghost predicate IsCutFor(f: CommitmentForest, needs: set<Name>, exposed: set<Name>, cut: Cut) {
    forall p :: p in cut <==> Selected(f, needs, exposed, p)
  }

  lemma CutForIsValid(f: CommitmentForest, needs: set<Name>, exposed: set<Name>, cut: Cut)
    requires IsCutFor(f, needs, exposed, cut)
    ensures f.ValidCut(cut)
  {
    forall p, q | p in cut && q in cut && p <= q ensures p == q {
      assert |p| == 1 ==> p == Root(p[0]);
    }
  }

  /** In a cut a family is open with all its children when one of its actors is exposed, only its packed
      branch when one is merely needed, and otherwise absent. */
  lemma FamilyIsOpenPackedOrAbsent(f: CommitmentForest, needs: set<Name>, exposed: set<Name>, cut: Cut, r: nat)
    requires IsCutFor(f, needs, exposed, cut) && f.IsBranch(Root(r))
    ensures var node := f.Lookup(Root(r)).value;
      if Holds(node, exposed) then
        Root(r) !in cut && forall i: nat :: i < |node.children| ==> Child(Root(r), i) in cut
      else if Holds(node, needs) then forall p :: p in cut && p[0] == r <==> p == Root(r)
      else forall p :: p in cut ==> p[0] != r
  {
    var node := f.Lookup(Root(r)).value;
    forall i: nat | i < |node.children| ensures f.Lookup(Child(Root(r), i)).Some? {
      f.LookupChild(Root(r), i);
    }
    forall p | p in cut && p[0] == r ensures |p| == 1 ==> p == Root(r) {
    }
    assert Root(r) in cut <==> Holds(node, needs) && !Holds(node, exposed);
  }

  /** The leaves of exposed actors are selected themselves; those of needed actors are covered. */
  lemma NeedsAreCovered(f: CommitmentForest, needs: set<Name>, exposed: set<Name>, cut: Cut, leaf: NodePath, a: Name)
    requires IsCutFor(f, needs, exposed, cut)
    requires |leaf| <= 2 && f.Lookup(leaf) == Some(Leaf(a))
    ensures a in exposed ==> leaf in cut
    ensures a in needs ==> Covers(cut, leaf)
  {
    if |leaf| == 2 {
      var root := Root(leaf[0]);
      assert root == Parent(leaf);
      var children := f.Lookup(root).value.children;
      assert children[leaf[1]].Leaf? && children[leaf[1]].actor == a;
      if Holds(f.Lookup(root).value, exposed) {
        assert Selected(f, needs, exposed, leaf) && leaf <= leaf;
      } else if a in needs {
        assert Selected(f, needs, exposed, root) && root <= leaf;
      }
    } else {
      assert Selected(f, needs, exposed, leaf) <==> a in needs + exposed;
    }
  }

  /** Whatever is selected stands below a root holding a need or an exposed actor. */
  lemma SelectedRootHolds(f: CommitmentForest, needs: set<Name>, exposed: set<Name>, p: NodePath)
    requires Selected(f, needs, exposed, p)
    ensures f.Lookup(Root(p[0])).Some? && Holds(f.Lookup(Root(p[0])).value, needs + exposed)
  {
    assert |p| == 1 ==> p == Root(p[0]);
    var node := f.Lookup(Root(p[0])).value;
    if node.Branch? {
      var s := if |p| == 1 then needs else exposed;
      var i :| 0 <= i < |node.children| && node.children[i].Leaf? && node.children[i].actor in s;
      assert node.children[i].actor in needs + exposed;
    }
  }

  /** Every terminal under a root that holds a need or an exposed actor is covered. */
  lemma HeldRootIsCovered(f: CommitmentForest, needs: set<Name>, exposed: set<Name>, cut: Cut, leaf: NodePath)
    requires IsCutFor(f, needs, exposed, cut) && f.IsTerminal(leaf)
    requires f.Lookup(Root(leaf[0])).Some? && Holds(f.Lookup(Root(leaf[0])).value, needs + exposed)
    ensures Covers(cut, leaf)
  {
    var root := Root(leaf[0]);
    var node := f.Lookup(root).value;
    assert root <= leaf;
    if node.Branch? {
      var i :| 0 <= i < |node.children| && node.children[i].Leaf? && node.children[i].actor in needs + exposed;
      if Holds(node, exposed) {
        assert leaf != root;
        f.LookupPrefix(root, leaf);
        var child := Child(root, leaf[1]);
        f.LookupChild(root, leaf[1]);
        assert Selected(f, needs, exposed, child);
      } else {
        assert Selected(f, needs, exposed, root);
      }
    } else {
      assert Selected(f, needs, exposed, root);
    }
  }

  /** Needing and exposing no more is derivable: the cut of a smaller demand derives from that of a larger one. */
  lemma SmallerDemandDerives(f: CommitmentForest, needs: set<Name>, exposed: set<Name>, cut: Cut,
                             needs': set<Name>, exposed': set<Name>, cut': Cut)
    requires IsCutFor(f, needs, exposed, cut) && IsCutFor(f, needs', exposed', cut')
    requires needs' + exposed' <= needs + exposed
    ensures f.ValidCut(cut') && Derives(f, cut, cut')
  {
    CutForIsValid(f, needs', exposed', cut');
    DerivesIffCovered(f, cut, cut');
    forall leaf | f.IsTerminal(leaf) && Covers(cut', leaf) ensures Covers(cut, leaf) {
      var s :| s in cut' && s <= leaf;
      SelectedRootHolds(f, needs', exposed', s);
      var node := f.Lookup(Root(leaf[0])).value;
      if node.Branch? {
        var i :| 0 <= i < |node.children| && node.children[i].Leaf? && node.children[i].actor in needs' + exposed';
        assert node.children[i].actor in needs + exposed;
      }
      HeldRootIsCovered(f, needs, exposed, cut, leaf);
    }
  }

  // ---------- How the cut is built ----------

  /** Each need as its leaf, or as its packed family branch. */
  function CutForNeeds(needs: set<Name>, byActor: map<Name, nat>, loc: Locations): Cut
    requires forall a :: a in needs ==> if a in byActor then byActor[a] in loc.familyPaths else a in loc.actorPaths
  {
    set a | a in needs :: NeedPath(a, byActor, loc)
  }

  /** Where the forest of the planner puts a cut's paths. */
  ghost predicate ForestPlanned(f: CommitmentForest, actors: set<Name>, families: Families, byActor: map<Name, nat>,
                                loc: Locations) {
    FamiliesOk(actors, families) && IsFamilyIndex(families, byActor) && IsLocated(f, actors, families, byActor, loc)
  }

  /** A family's branch holds an actor set exactly when one of its members is in it. */
  lemma FamilyHolds(f: CommitmentForest, actors: set<Name>, families: Families, byActor: map<Name, nat>, loc: Locations,
                    k: nat, s: set<Name>)
    requires ForestPlanned(f, actors, families, byActor, loc) && k < |families|
    ensures f.Lookup(loc.familyPaths[k]).Some?
    ensures Holds(f.Lookup(loc.familyPaths[k]).value, s) <==> exists a :: a in s && a in byActor && byActor[a] == k
  {
    FamilyChild(f, actors, families, byActor, loc, k, 0);
    BranchHolds(families[k], s);
    assert forall a :: a in families[k] <==> a in byActor && byActor[a] == k;
  }

  lemma BranchHolds(family: seq<Name>, s: set<Name>)
    ensures Holds(Branch(Leaves(family)), s) <==> exists a :: a in s && a in family
  {
    if a :| a in s && a in family {
      var j :| 0 <= j < |family| && family[j] == a;
      assert Leaves(family)[j].Leaf?;
    }
  }

  /** The leaf of a standalone actor that is to be shown. */
  ghost predicate StandaloneAt(byActor: map<Name, nat>, loc: Locations, shown: set<Name>, a: Name, p: NodePath) {
    a in loc.actorPaths && a !in byActor && a in shown && p == loc.actorPaths[a]
  }

  /** The branch of a family that is needed but not exposed. */
  ghost predicate PackedAt(byActor: map<Name, nat>, loc: Locations, needs: set<Name>, exposed: set<Name>, k: nat,
                           p: NodePath) {
    k in loc.familyPaths && p == loc.familyPaths[k] && Touches(byActor, k, needs) && !Touches(byActor, k, exposed)
  }

  /** A child of a family that is exposed. */
  ghost predicate OpenAt(families: Families, byActor: map<Name, nat>, loc: Locations, exposed: set<Name>, k: nat,
                         j: nat, p: NodePath) {
    k in loc.familyPaths && IsChildPath(families, loc, k, j, p) && Touches(byActor, k, exposed)
  }

  ghost predicate IsChildPath(families: Families, loc: Locations, k: nat, j: nat, p: NodePath)
    requires k in loc.familyPaths
  {
    k < |families| && j < |families[k]| && p == Child(loc.familyPaths[k], j)
  }

  /** The selected paths, spelled out by location. */
  ghost predicate SelectedAt(families: Families, byActor: map<Name, nat>, loc: Locations,
                             needs: set<Name>, exposed: set<Name>, p: NodePath) {
    || (exists a :: StandaloneAt(byActor, loc, needs + exposed, a, p))
    || (exists k: nat :: PackedAt(byActor, loc, needs, exposed, k, p))
    || (exists k: nat, j: nat :: OpenAt(families, byActor, loc, exposed, k, j, p))
  }

  /** The set holds a member of family `k`. */
  ghost predicate Touches(byActor: map<Name, nat>, k: nat, s: set<Name>) {
    exists a :: a in s && a in byActor && byActor[a] == k
  }

  lemma SelectedRootByLocation(f: CommitmentForest, actors: set<Name>, families: Families, byActor: map<Name, nat>,
                               loc: Locations, needs: set<Name>, exposed: set<Name>, p: NodePath)
    requires ForestPlanned(f, actors, families, byActor, loc) && Selected(f, needs, exposed, p) && |p| == 1
    ensures SelectedAt(families, byActor, loc, needs, exposed, p)
  {
    PathKinds(f, actors, families, byActor, loc, p);
    if f.Lookup(p).value.Branch? {
      var k :| k in loc.familyPaths && loc.familyPaths[k] == Root(p[0]);
      FamilyHolds(f, actors, families, byActor, loc, k, needs);
      FamilyHolds(f, actors, families, byActor, loc, k, exposed);
      assert PackedAt(byActor, loc, needs, exposed, k, p);
    } else {
      assert StandaloneAt(byActor, loc, needs + exposed, f.Lookup(p).value.actor, p);
    }
  }

  lemma SelectedChildByLocation(f: CommitmentForest, actors: set<Name>, families: Families, byActor: map<Name, nat>,
                                loc: Locations, needs: set<Name>, exposed: set<Name>, p: NodePath)
    requires ForestPlanned(f, actors, families, byActor, loc) && Selected(f, needs, exposed, p) && |p| == 2
    ensures SelectedAt(families, byActor, loc, needs, exposed, p)
  {
    PathKinds(f, actors, families, byActor, loc, p);
    var k: nat, j: nat :|
      k < |families| && j < |families[k]| && loc.familyPaths[k] == Parent(p) && p == Child(loc.familyPaths[k], j);
    ChildIsOpen(f, actors, families, byActor, loc, needs, exposed, p, k, j);
  }

  lemma ChildIsOpen(f: CommitmentForest, actors: set<Name>, families: Families, byActor: map<Name, nat>, loc: Locations,
                    needs: set<Name>, exposed: set<Name>, p: NodePath, k: nat, j: nat)
    requires ForestPlanned(f, actors, families, byActor, loc) && Selected(f, needs, exposed, p) && |p| == 2
    requires k in loc.familyPaths && IsChildPath(families, loc, k, j, p) && loc.familyPaths[k] == Parent(p)
    ensures OpenAt(families, byActor, loc, exposed, k, j, p)
  {
    assert Parent(p) == Root(p[0]);
    FamilyHolds(f, actors, families, byActor, loc, k, exposed);
  }

  lemma SelectedByLocation(f: CommitmentForest, actors: set<Name>, families: Families, byActor: map<Name, nat>,
                           loc: Locations, needs: set<Name>, exposed: set<Name>, p: NodePath)
    requires ForestPlanned(f, actors, families, byActor, loc)
    ensures Selected(f, needs, exposed, p) <==> SelectedAt(families, byActor, loc, needs, exposed, p)
  {
    if Selected(f, needs, exposed, p) {
      if |p| == 1 {
        SelectedRootByLocation(f, actors, families, byActor, loc, needs, exposed, p);
      } else {
        SelectedChildByLocation(f, actors, families, byActor, loc, needs, exposed, p);
      }
    }
    if SelectedAt(families, byActor, loc, needs, exposed, p) {
      LocationIsSelected(f, actors, families, byActor, loc, needs, exposed, p);
    }
  }

  lemma PackedFamilySelected(f: CommitmentForest, actors: set<Name>, families: Families, byActor: map<Name, nat>,
                             loc: Locations, needs: set<Name>, exposed: set<Name>, k: nat)
    requires ForestPlanned(f, actors, families, byActor, loc) && k in loc.familyPaths
    requires Touches(byActor, k, needs) && !Touches(byActor, k, exposed)
    ensures Selected(f, needs, exposed, loc.familyPaths[k])
  {
    FamilyHolds(f, actors, families, byActor, loc, k, needs);
    FamilyHolds(f, actors, families, byActor, loc, k, exposed);
    FamilyChild(f, actors, families, byActor, loc, k, 0);
    assert FamilyAt(f.roots, families[k], loc.familyPaths[k], loc.actorPaths);
  }

  lemma OpenChildSelected(f: CommitmentForest, actors: set<Name>, families: Families, byActor: map<Name, nat>,
                          loc: Locations, needs: set<Name>, exposed: set<Name>, k: nat, j: nat)
    requires ForestPlanned(f, actors, families, byActor, loc) && k < |families| && j < |families[k]|
    requires Touches(byActor, k, exposed)
    ensures Selected(f, needs, exposed, Child(loc.familyPaths[k], j))
  {
    FamilyHolds(f, actors, families, byActor, loc, k, exposed);
    FamilyChild(f, actors, families, byActor, loc, k, j);
    assert FamilyAt(f.roots, families[k], loc.familyPaths[k], loc.actorPaths);
    assert Root(Child(loc.familyPaths[k], j)[0]) == loc.familyPaths[k];
  }

  lemma LocationIsSelected(f: CommitmentForest, actors: set<Name>, families: Families, byActor: map<Name, nat>,
                           loc: Locations, needs: set<Name>, exposed: set<Name>, p: NodePath)
    requires ForestPlanned(f, actors, families, byActor, loc) && SelectedAt(families, byActor, loc, needs, exposed, p)
    ensures Selected(f, needs, exposed, p)
  {
    if a :| StandaloneAt(byActor, loc, needs + exposed, a, p) {
      assert RootIs(f.roots, loc.actorPaths[a], Leaf(a));
    } else if k: nat :| PackedAt(byActor, loc, needs, exposed, k, p) {
      PackedFamilySelected(f, actors, families, byActor, loc, needs, exposed, k);
    } else {
      var k: nat, j: nat :| OpenAt(families, byActor, loc, exposed, k, j, p);
      OpenChildSelected(f, actors, families, byActor, loc, needs, exposed, k, j);
    }
  }

  ghost predicate LocatedCut(families: Families, byActor: map<Name, nat>, loc: Locations,
                             needs: set<Name>, exposed: set<Name>, cut: Cut) {
    forall p :: p in cut <==> SelectedAt(families, byActor, loc, needs, exposed, p)
  }

  /** The direct translation of needs exposes nothing. */
  lemma NeedsAreLocated(f: CommitmentForest, actors: set<Name>, families: Families, byActor: map<Name, nat>,
                        loc: Locations, needs: set<Name>)
    requires ForestPlanned(f, actors, families, byActor, loc) && needs <= actors
    ensures LocatedCut(families, byActor, loc, needs, {}, CutForNeeds(needs, byActor, loc))
  {
    var cut := CutForNeeds(needs, byActor, loc);
    assert needs + {} == needs;
    forall p ensures p in cut <==> SelectedAt(families, byActor, loc, needs, {}, p) {
      NeedIsLocated(families, byActor, loc, needs, p);
    }
  }

  /** The path a need is translated to. */
  function NeedPath(a: Name, byActor: map<Name, nat>, loc: Locations): NodePath
    requires if a in byActor then byActor[a] in loc.familyPaths else a in loc.actorPaths
  {
    if a in byActor then loc.familyPaths[byActor[a]] else loc.actorPaths[a]
  }

  lemma NeedIsLocated(families: Families, byActor: map<Name, nat>, loc: Locations, needs: set<Name>, p: NodePath)
    requires forall a :: a in needs ==> if a in byActor then byActor[a] in loc.familyPaths else a in loc.actorPaths
    ensures (exists a :: a in needs && p == NeedPath(a, byActor, loc)) <==> SelectedAt(families, byActor, loc, needs, {}, p)
  {
    assert needs + {} == needs;
    if a :| a in needs && p == NeedPath(a, byActor, loc) {
      if a in byActor {
        assert PackedAt(byActor, loc, needs, {}, byActor[a], p);
      } else {
        assert StandaloneAt(byActor, loc, needs + {}, a, p);
      }
    }
    if SelectedAt(families, byActor, loc, needs, {}, p) {
      if a :| StandaloneAt(byActor, loc, needs + {}, a, p) {
        assert p == NeedPath(a, byActor, loc);
      } else {
        var k: nat :| PackedAt(byActor, loc, needs, {}, k, p);
        var a :| a in needs && a in byActor && byActor[a] == k;
        assert p == NeedPath(a, byActor, loc);
      }
    }
  }

  lemma TouchesOneMore(byActor: map<Name, nat>, s: set<Name>, x: Name)
    requires x in byActor
    ensures forall l: nat :: Touches(byActor, l, s + {x}) <==> l == byActor[x] || Touches(byActor, l, s)
  {
    forall l: nat | l == byActor[x] || Touches(byActor, l, s) ensures Touches(byActor, l, s + {x}) {
      if l == byActor[x] {
        assert x in s + {x};
      } else {
        var a :| a in s && a in byActor && byActor[a] == l;
        assert a in s + {x};
      }
    }
  }

  lemma TouchesNoMore(byActor: map<Name, nat>, s: set<Name>, x: Name)
    requires x !in byActor
    ensures forall l: nat :: Touches(byActor, l, s + {x}) <==> Touches(byActor, l, s)
  {
    forall l: nat | Touches(byActor, l, s) ensures Touches(byActor, l, s + {x}) {
      var a :| a in s && a in byActor && byActor[a] == l;
      assert a in s + {x};
    }
  }

  /** A family's branch path is no other family's, no standalone actor's and no child's. */
  lemma FamilyPathIsOwn(f: CommitmentForest, actors: set<Name>, families: Families, byActor: map<Name, nat>,
                        loc: Locations, k: nat)
    requires ForestPlanned(f, actors, families, byActor, loc) && k < |families|
    ensures |loc.familyPaths[k]| == 1
    ensures forall l :: l in loc.familyPaths && loc.familyPaths[l] == loc.familyPaths[k] ==> l == k
    ensures forall a :: a in loc.actorPaths && a !in byActor ==> loc.actorPaths[a] != loc.familyPaths[k]
  {
    assert FamilyAt(f.roots, families[k], loc.familyPaths[k], loc.actorPaths);
    forall l | l in loc.familyPaths && loc.familyPaths[l] == loc.familyPaths[k] ensures l == k {
      assert FamilyAt(f.roots, families[l], loc.familyPaths[l], loc.actorPaths);
      assert Leaves(families[l])[0] == Leaf(families[l][0]) && Leaves(families[k])[0] == Leaf(families[k][0]);
      assert families[l][0] in families[l] && families[k][0] in families[k];
    }
    forall a | a in loc.actorPaths && a !in byActor ensures loc.actorPaths[a] != loc.familyPaths[k] {
      assert RootIs(f.roots, loc.actorPaths[a], Leaf(a));
    }
  }

  lemma StandaloneExposed(families: Families, byActor: map<Name, nat>, loc: Locations,
                          needs: set<Name>, exposed: set<Name>, cut: Cut, x: Name)
    requires LocatedCut(families, byActor, loc, needs, exposed, cut) && x !in byActor && x in loc.actorPaths
    ensures LocatedCut(families, byActor, loc, needs, exposed + {x}, cut + {loc.actorPaths[x]})
  {
    TouchesNoMore(byActor, exposed, x);
    forall p ensures p in cut + {loc.actorPaths[x]} <==> SelectedAt(families, byActor, loc, needs, exposed + {x}, p) {
      SameFamiliesSelected(families, byActor, loc, needs, exposed, exposed + {x}, p);
      assert forall a :: a != x ==>
          (StandaloneAt(byActor, loc, needs + (exposed + {x}), a, p) <==> StandaloneAt(byActor, loc, needs + exposed, a, p));
      assert StandaloneAt(byActor, loc, needs + (exposed + {x}), x, p) <==> p == loc.actorPaths[x];
    }
  }

  /** Exposing actors of families already exposed, or of none, changes no family's state. */
  lemma SameFamiliesSelected(families: Families, byActor: map<Name, nat>, loc: Locations,
                             needs: set<Name>, exposed: set<Name>, exposed': set<Name>, p: NodePath)
    requires forall l: nat :: Touches(byActor, l, exposed') <==> Touches(byActor, l, exposed)
    ensures forall k: nat :: PackedAt(byActor, loc, needs, exposed', k, p) <==> PackedAt(byActor, loc, needs, exposed, k, p)
    ensures forall k: nat, j: nat ::
              OpenAt(families, byActor, loc, exposed', k, j, p) <==> OpenAt(families, byActor, loc, exposed, k, j, p)
  {
  }

  lemma FamilyExposedAgain(families: Families, byActor: map<Name, nat>, loc: Locations,
                           needs: set<Name>, exposed: set<Name>, cut: Cut, x: Name)
    requires LocatedCut(families, byActor, loc, needs, exposed, cut)
    requires x in byActor && Touches(byActor, byActor[x], exposed)
    ensures LocatedCut(families, byActor, loc, needs, exposed + {x}, cut)
  {
    TouchesOneMore(byActor, exposed, x);
    forall p ensures SelectedAt(families, byActor, loc, needs, exposed, p)
                <==> SelectedAt(families, byActor, loc, needs, exposed + {x}, p)
    {
      SameFamiliesSelected(families, byActor, loc, needs, exposed, exposed + {x}, p);
      SameStandaloneSelected(byActor, loc, needs, exposed, x, p);
    }
  }

  /** Exposing a family actor shows no standalone actor. */
  lemma SameStandaloneSelected(byActor: map<Name, nat>, loc: Locations, needs: set<Name>, exposed: set<Name>, x: Name,
                               p: NodePath)
    requires x in byActor
    ensures forall a ::
              StandaloneAt(byActor, loc, needs + (exposed + {x}), a, p) <==> StandaloneAt(byActor, loc, needs + exposed, a, p)
  {
  }

  lemma FamilyExposed(f: CommitmentForest, actors: set<Name>, families: Families, byActor: map<Name, nat>,
                      loc: Locations,
                      needs: set<Name>, exposed: set<Name>, cut: Cut, x: Name, leaves: Cut)
    requires ForestPlanned(f, actors, families, byActor, loc)
    requires LocatedCut(families, byActor, loc, needs, exposed, cut)
    requires x in byActor && !Touches(byActor, byActor[x], exposed)
    requires IsLeavesOf(families, loc, byActor[x], leaves)
    ensures LocatedCut(families, byActor, loc, needs, exposed + {x}, cut - {loc.familyPaths[byActor[x]]} + leaves)
  {
    var k := byActor[x];
    FamilyPathIsOwn(f, actors, families, byActor, loc, k);
    forall p ensures p in cut - {loc.familyPaths[k]} + leaves <==> SelectedAt(families, byActor, loc, needs, exposed + {x}, p) {
      SelectedOnceExposed(families, byActor, loc, needs, exposed, x, p);
      assert p in leaves <==> exists j: nat :: IsChildPath(families, loc, k, j, p);
      assert p in cut <==> SelectedAt(families, byActor, loc, needs, exposed, p);
    }
  }

  /** Exposing the first actor of a family replaces its branch by its children and leaves the rest alone. */
  lemma SelectedOnceExposed(families: Families, byActor: map<Name, nat>, loc: Locations,
                            needs: set<Name>, exposed: set<Name>, x: Name, p: NodePath)
    requires x in byActor && byActor[x] < |families| && byActor[x] in loc.familyPaths
    requires !Touches(byActor, byActor[x], exposed)
    requires |loc.familyPaths[byActor[x]]| == 1
    requires forall l :: l in loc.familyPaths && loc.familyPaths[l] == loc.familyPaths[byActor[x]] ==> l == byActor[x]
    requires forall a :: a in loc.actorPaths && a !in byActor ==> loc.actorPaths[a] != loc.familyPaths[byActor[x]]
    ensures SelectedAt(families, byActor, loc, needs, exposed + {x}, p) <==>
              || (SelectedAt(families, byActor, loc, needs, exposed, p) && p != loc.familyPaths[byActor[x]])
              || exists j: nat :: IsChildPath(families, loc, byActor[x], j, p)
  {
    var k, more := byActor[x], exposed + {x};
    TouchesOneMore(byActor, exposed, x);
    SameStandaloneSelected(byActor, loc, needs, exposed, x, p);
    assert forall l: nat :: l != k ==> (PackedAt(byActor, loc, needs, more, l, p) <==> PackedAt(byActor, loc, needs, exposed, l, p));
    assert !PackedAt(byActor, loc, needs, more, k, p);
    assert forall l: nat, j: nat :: l != k ==>
        (OpenAt(families, byActor, loc, more, l, j, p) <==> OpenAt(families, byActor, loc, exposed, l, j, p));
    assert forall j: nat :: !OpenAt(families, byActor, loc, exposed, k, j, p);
    assert forall j: nat :: OpenAt(families, byActor, loc, more, k, j, p) <==> IsChildPath(families, loc, k, j, p);
    OtherPathsDiffer(families, byActor, loc, needs, exposed, k, p);
  }

  /** What is selected apart from the branch of `k` stands elsewhere. */
  lemma OtherPathsDiffer(families: Families, byActor: map<Name, nat>, loc: Locations,
                         needs: set<Name>, exposed: set<Name>, k: nat, p: NodePath)
    requires k in loc.familyPaths && |loc.familyPaths[k]| == 1
    requires forall l :: l in loc.familyPaths && loc.familyPaths[l] == loc.familyPaths[k] ==> l == k
    requires forall a :: a in loc.actorPaths && a !in byActor ==> loc.actorPaths[a] != loc.familyPaths[k]
    ensures forall a :: StandaloneAt(byActor, loc, needs + exposed, a, p) ==> p != loc.familyPaths[k]
    ensures forall l: nat :: PackedAt(byActor, loc, needs, exposed, l, p) && l != k ==> p != loc.familyPaths[k]
    ensures forall l: nat, j: nat :: OpenAt(families, byActor, loc, exposed, l, j, p) ==> p != loc.familyPaths[k]
  {
    forall l: nat, j: nat | OpenAt(families, byActor, loc, exposed, l, j, p) ensures p != loc.familyPaths[k] {
      assert |p| == |loc.familyPaths[l]| + 1;
    }
  }

  /** The set of the child paths of family `k`. */
  ghost predicate IsLeavesOf(families: Families, loc: Locations, k: nat, leaves: Cut) {
    k in loc.familyPaths && forall p :: p in leaves <==> exists j: nat :: IsChildPath(families, loc, k, j, p)
  }

  function LeafPaths(family: seq<Name>, loc: Locations): Cut
    requires forall a :: a in family ==> a in loc.actorPaths
  {
    set a | a in family :: loc.actorPaths[a]
  }

  /** What holds while the actors `done` have been exposed. */
  ghost predicate Exposing(families: Families, byActor: map<Name, nat>, loc: Locations, needs: set<Name>,
                           done: set<Name>, openedFamilies: set<nat>, cut: Cut) {
    && LocatedCut(families, byActor, loc, needs, done, cut)
    && forall k: nat :: k in openedFamilies <==> Touches(byActor, k, done)
  }

  /** Expose one more actor. */
  method ExposeActor(cut: Cut, openedFamilies: set<nat>, actor: Name, families: Families, byActor: map<Name, nat>,
                     loc: Locations, ghost f: CommitmentForest, ghost actors: set<Name>, ghost needs: set<Name>,
                     ghost done: set<Name>)
    returns (cut': Cut, openedFamilies': set<nat>)
    requires ForestPlanned(f, actors, families, byActor, loc) && actor in actors
    requires Exposing(families, byActor, loc, needs, done, openedFamilies, cut)
    ensures Exposing(families, byActor, loc, needs, done + {actor}, openedFamilies', cut')
  {
    if actor !in byActor {
      StandaloneExposed(families, byActor, loc, needs, done, cut, actor);
      TouchesNoMore(byActor, done, actor);
      return cut + {loc.actorPaths[actor]}, openedFamilies;
    }
    var k := byActor[actor];
    TouchesOneMore(byActor, done, actor);
    if k in openedFamilies {
      FamilyExposedAgain(families, byActor, loc, needs, done, cut, actor);
      return cut, openedFamilies;
    }
    FamilyLeafPaths(f, actors, families, byActor, loc, k);
    var leaves := LeafPaths(families[k], loc);
    FamilyExposed(f, actors, families, byActor, loc, needs, done, cut, actor, leaves);
    return cut - {loc.familyPaths[k]} + leaves, openedFamilies + {k};
  }

  /** Open the families of the exposed actors, and add the standalone ones. */
  method ExposeActors(cut: Cut, exposed: set<Name>, families: Families, byActor: map<Name, nat>, loc: Locations,
                      ghost f: CommitmentForest, ghost actors: set<Name>, ghost needs: set<Name>)
    returns (cut': Cut)
    requires ForestPlanned(f, actors, families, byActor, loc) && exposed <= actors
    requires LocatedCut(families, byActor, loc, needs, {}, cut)
    ensures LocatedCut(families, byActor, loc, needs, exposed, cut')
  {
    cut' := cut;
    var openedFamilies: set<nat> := {};
    var order := Sorted(Lexicographic, exposed);
    ghost var done: set<Name> := {};
    for i := 0 to |order|
      invariant forall a :: a in done <==> a in order[..i]
      invariant Exposing(families, byActor, loc, needs, done, openedFamilies, cut')
    {
      var actor := order[i];
      assert actor in order && order[..i + 1] == order[..i] + [actor];
      cut', openedFamilies := ExposeActor(cut', openedFamilies, actor, families, byActor, loc, f, actors, needs, done);
      done := done + {actor};
    }
    assert order[..|order|] == order;
    assert done == exposed;
  }

  lemma FamilyLeafPaths(f: CommitmentForest, actors: set<Name>, families: Families, byActor: map<Name, nat>,
                        loc: Locations, k: nat)
    requires ForestPlanned(f, actors, families, byActor, loc) && k < |families|
    ensures forall a :: a in families[k] ==> a in loc.actorPaths
    ensures IsLeavesOf(families, loc, k, LeafPaths(families[k], loc))
  {
    assert FamilyAt(f.roots, families[k], loc.familyPaths[k], loc.actorPaths);
    forall p ensures p in LeafPaths(families[k], loc) <==> exists j: nat :: IsChildPath(families, loc, k, j, p) {
      if p in LeafPaths(families[k], loc) {
        var a :| a in families[k] && p == loc.actorPaths[a];
        var j: nat :| j < |families[k]| && families[k][j] == a;
        assert IsChildPath(families, loc, k, j, p);
      }
      if j: nat :| IsChildPath(families, loc, k, j, p) {
        assert families[k][j] in families[k];
      }
    }
  }

  /** The cut for given needs and exposed actors. */
  method CutFor(needs: set<Name>, exposed: set<Name>, families: Families, byActor: map<Name, nat>, loc: Locations,
                ghost f: CommitmentForest, ghost actors: set<Name>)
    returns (cut: Cut)
    requires ForestPlanned(f, actors, families, byActor, loc) && needs <= actors && exposed <= actors
    ensures IsCutFor(f, needs, exposed, cut)
  {
    NeedsAreLocated(f, actors, families, byActor, loc, needs);
    cut := CutForNeeds(needs, byActor, loc);
    cut := ExposeActors(cut, exposed, families, byActor, loc, f, actors, needs);
    forall p ensures p in cut <==> Selected(f, needs, exposed, p) {
      SelectedByLocation(f, actors, families, byActor, loc, needs, exposed, p);
    }
  }
}
