/** The Merkle tree over the leaves of a route table, for any parent hash. */
module Merkle {
  import opened Hex

  const HASH_SIZE := 32

  type Hash = h: seq<Byte> | |h| == HASH_SIZE witness seq(HASH_SIZE, i => 0)

  /** The hash function of the tree: of two children, and of nothing. */
  datatype Hasher = Hasher(parent: (Hash, Hash) -> Hash, empty: Hash)

  datatype Side = Left | Right

  /** A sibling hash and the side it stands on. */
  datatype Step = Step(side: Side, sibling: Hash)

  // ---------- Layers ----------

  /** The two nodes hashed together at position `i` of the next layer; an unpaired last node is its own sibling. */
  function PairAt(layer: seq<Hash>, i: nat): (Hash, Hash)
    requires 2 * i < |layer|
  {
    (layer[2 * i], if 2 * i + 1 < |layer| then layer[2 * i + 1] else layer[2 * i])
  }

  function ParentAt(h: Hasher, layer: seq<Hash>, i: nat): Hash
    requires 2 * i < |layer|
  {
    h.parent(PairAt(layer, i).0, PairAt(layer, i).1)
  }

  ghost predicate IsNextLayer(h: Hasher, layer: seq<Hash>, next: seq<Hash>) {
    && |next| == (|layer| + 1) / 2
    && forall i: nat :: i < |next| ==> next[i] == ParentAt(h, layer, i)
  }

  /** Each layer is the pairing of the one below, down to a single root. */
  ghost predicate IsLayers(h: Hasher, leaves: seq<Hash>, layers: seq<seq<Hash>>) {
    && layers != [] && layers[0] == leaves
    && (forall k :: 0 <= k < |layers| - 1 ==> 1 < |layers[k]| && IsNextLayer(h, layers[k], layers[k + 1]))
    && |layers[|layers| - 1]| == 1
  }

  method NextLayer(h: Hasher, layer: seq<Hash>) returns (next: seq<Hash>)
    ensures IsNextLayer(h, layer, next)
  {
    next := [];
    var i := 0;
    while 2 * i < |layer|
      invariant 2 * i <= |layer| + 1 && |next| == i
      invariant forall j: nat :: j < i ==> next[j] == ParentAt(h, layer, j)
    {
      var left := layer[2 * i];
      var right := if 2 * i + 1 < |layer| then layer[2 * i + 1] else left;
      next := next + [h.parent(left, right)];
      i := i + 1;
    }
  }

  method MerkleLayers(h: Hasher, leaves: seq<Hash>) returns (layers: seq<seq<Hash>>)
    ensures leaves == [] ==> layers == []
    ensures leaves != [] ==> IsLayers(h, leaves, layers)
  {
    if leaves == [] {
      return [];
    }
    layers := [leaves];
    while 1 < |layers[|layers| - 1]|
      invariant layers != [] && layers[0] == leaves && layers[|layers| - 1] != []
      invariant forall k :: 0 <= k < |layers| - 1 ==> 1 < |layers[k]| && IsNextLayer(h, layers[k], layers[k + 1])
      decreases |layers[|layers| - 1]|
    {
      var next := NextLayer(h, layers[|layers| - 1]);
      layers := layers + [next];
    }
  }

  /** The layers above the leaves are the layers over the next layer. */
  lemma UpperLayers(h: Hasher, leaves: seq<Hash>, layers: seq<seq<Hash>>)
    requires IsLayers(h, leaves, layers) && 1 < |layers|
    ensures 1 < |leaves| && IsNextLayer(h, leaves, layers[1]) && IsLayers(h, layers[1], layers[1..])
  {
    var upper := layers[1..];
    assert forall k :: 0 <= k < |upper| ==> upper[k] == layers[k + 1];
  }

  /** Node `i` of a layer is the hash of nodes `2i` and `2i + 1` below it, in this order, an unpaired last node standing
      on both sides. */
  lemma NodesHashTheirChildren(h: Hasher, leaves: seq<Hash>, layers: seq<seq<Hash>>, k: nat, i: nat)
    requires IsLayers(h, leaves, layers) && k + 1 < |layers| && i < |layers[k + 1]|
    ensures layers[0] == leaves && |layers[|layers| - 1]| == 1
    ensures 2 * |layers[k + 1]| == |layers[k]| || 2 * |layers[k + 1]| == |layers[k]| + 1
    ensures 2 * i < |layers[k]|
    ensures 2 * i + 1 < |layers[k]| ==> layers[k + 1][i] == h.parent(layers[k][2 * i], layers[k][2 * i + 1])
    ensures 2 * i + 1 == |layers[k]| ==> layers[k + 1][i] == h.parent(layers[k][2 * i], layers[k][2 * i])
  {
    assert IsNextLayer(h, layers[k], layers[k + 1]);
    assert layers[k + 1][i] == ParentAt(h, layers[k], i);
  }

  lemma NextLayerIsUnique(h: Hasher, layer: seq<Hash>, a: seq<Hash>, b: seq<Hash>)
    requires IsNextLayer(h, layer, a) && IsNextLayer(h, layer, b)
    ensures a == b
  {
  }

  /** Leaves have one tree of layers. */
  lemma {:induction false} LayersAreUnique(h: Hasher, leaves: seq<Hash>, a: seq<seq<Hash>>, b: seq<seq<Hash>>)
    requires IsLayers(h, leaves, a) && IsLayers(h, leaves, b)
    ensures a == b
    decreases |a|
  {
    if 1 < |a| && 1 < |b| {
      UpperLayers(h, leaves, a);
      UpperLayers(h, leaves, b);
      NextLayerIsUnique(h, leaves, a[1], b[1]);
      LayersAreUnique(h, a[1], a[1..], b[1..]);
      assert a == [a[0]] + a[1..] && b == [b[0]] + b[1..];
    } else {
      assert |a| == 1 ==> |leaves| == 1;
      assert |b| == 1 ==> |leaves| == 1;
      assert |a| == 1 && |b| == 1;
    }
  }

  // ---------- Proofs ----------

  function SiblingIndex(layer: seq<Hash>, index: nat): (sibling: nat)
    requires index < |layer|
    ensures sibling < |layer|
  {
    if index % 2 == 0 then (if index + 1 < |layer| then index + 1 else |layer| - 1) else index - 1
  }

  function StepAt(layer: seq<Hash>, index: nat): Step
    requires index < |layer|
  {
    Step(if index % 2 == 0 then Right else Left, layer[SiblingIndex(layer, index)])
  }

  /** One step per layer below the root, the index halving at each. */
  ghost predicate IsProof(layers: seq<seq<Hash>>, index: nat, proof: seq<Step>)
    decreases |layers|
  {
    if |layers| <= 1 then proof == []
    else
      && index < |layers[0]| && proof != []
      && proof[0] == StepAt(layers[0], index)
      && IsProof(layers[1..], index / 2, proof[1..])
  }

  method MerkleProof(h: Hasher, leaves: seq<Hash>, layers: seq<seq<Hash>>, index: nat) returns (proof: seq<Step>)
    requires IsLayers(h, leaves, layers) && index < |leaves|
    ensures IsProof(layers, index, proof)
  {
    proof := [];
    var position: nat := index;
    assert layers[0..] == layers;
    assert forall rest: seq<Step> :: proof + rest == rest;
    for k := 0 to |layers| - 1
      invariant position < |layers[k]|
      invariant forall rest :: IsProof(layers[k..], position, rest) ==> IsProof(layers, index, proof + rest)
    {
      var layer := layers[k];
      var isLeftChild := position % 2 == 0;
      var siblingIndex := if isLeftChild then (if position + 1 < |layer| - 1 then position + 1 else |layer| - 1) else position - 1;
      var step := Step(if isLeftChild then Right else Left, layer[siblingIndex]);
      assert step == StepAt(layer, position);
      assert IsNextLayer(h, layers[k], layers[k + 1]);
      ghost var before := proof;
      proof := proof + [step];
      forall rest | IsProof(layers[k + 1..], position / 2, rest) ensures IsProof(layers, index, proof + rest) {
        assert layers[k..][1..] == layers[k + 1..];
        assert ([step] + rest)[1..] == rest;
        assert IsProof(layers[k..], position, [step] + rest);
        assert before + ([step] + rest) == proof + rest;
      }
      position := position / 2;
    }
    assert IsProof(layers[|layers| - 1..], position, []);
    assert proof + [] == proof;
  }

  /** Hash up from a leaf. */
  function Fold(h: Hasher, leaf: Hash, proof: seq<Step>): Hash
    decreases |proof|
  {
    if proof == [] then leaf
    else
      var step := proof[0];
      Fold(h, if step.side == Left then h.parent(step.sibling, leaf) else h.parent(leaf, step.sibling), proof[1..])
  }

  function Sides(proof: seq<Step>): seq<Side> {
    seq(|proof|, i requires 0 <= i < |proof| => proof[i].side)
  }

  /** The number whose binary digits, least first, are the sides: 1 for a left sibling. */
  function SidesAsIndex(sides: seq<Side>): nat {
    if sides == [] then 0 else (if sides[0] == Left then 1 else 0) + 2 * SidesAsIndex(sides[1..])
  }

  /** One step up: hashing a node with its sibling gives its parent. */
  lemma StepReachesParent(h: Hasher, layer: seq<Hash>, next: seq<Hash>, i: nat)
    requires IsNextLayer(h, layer, next) && i < |layer|
    ensures i / 2 < |next|
    ensures next[i / 2] ==
      if StepAt(layer, i).side == Left then h.parent(StepAt(layer, i).sibling, layer[i])
      else h.parent(layer[i], StepAt(layer, i).sibling)
  {
    assert next[i / 2] == ParentAt(h, layer, i / 2);
  }

  /** Completeness: the generated proof of any leaf folds to the root, and its sides spell the index in binary. */
  lemma {:induction false} ProofFoldsToRoot(h: Hasher, leaves: seq<Hash>, layers: seq<seq<Hash>>, i: nat,
                                            proof: seq<Step>)
    requires IsLayers(h, leaves, layers) && i < |leaves| && IsProof(layers, i, proof)
    ensures |proof| == |layers| - 1
    ensures Fold(h, leaves[i], proof) == layers[|layers| - 1][0]
    ensures SidesAsIndex(Sides(proof)) == i
    decreases |layers|
  {
    if |layers| == 1 {
      assert i == 0;
    } else {
      UpperLayers(h, leaves, layers);
      StepReachesParent(h, leaves, layers[1], i);
      ProofFoldsToRoot(h, layers[1], layers[1..], i / 2, proof[1..]);
      assert Sides(proof)[1..] == Sides(proof[1..]);
    }
  }

  // ---------- Binding ----------

  /** The pair is hashed somewhere while the layers are built. */
  ghost predicate IsPairOf(layers: seq<seq<Hash>>, p: (Hash, Hash)) {
    exists k: nat, i: nat :: IsPairAt(layers, k, i, p)
  }

  ghost predicate IsPairAt(layers: seq<seq<Hash>>, k: nat, i: nat, p: (Hash, Hash)) {
    k + 1 < |layers| && 2 * i < |layers[k]| && p == PairAt(layers[k], i)
  }

  /** Two different pairs with one parent: a collision of the hash function. */
  ghost predicate Collide(h: Hasher, p: (Hash, Hash), q: (Hash, Hash)) {
    p != q && h.parent(p.0, p.1) == h.parent(q.0, q.1)
  }

  lemma UpperPair(layers: seq<seq<Hash>>, p: (Hash, Hash))
    requires 1 < |layers| && IsPairOf(layers[1..], p)
    ensures IsPairOf(layers, p)
  {
    var k: nat, i: nat :| IsPairAt(layers[1..], k, i, p);
    assert IsPairAt(layers, k + 1, i, p);
  }

  lemma LowestPair(layers: seq<seq<Hash>>, i: nat)
    requires 1 < |layers| && 2 * i < |layers[0]|
    ensures IsPairOf(layers, PairAt(layers[0], i))
  {
    assert IsPairAt(layers, 0, i, PairAt(layers[0], i));
  }

  /** The leaf, of `n`, reached from the root in `d` turns by the binary digits of an address, the last digit deciding
      the last turn: a right turn at an unpaired node goes left, because that node is its own sibling. */
  ghost function LeafAt(n: nat, d: nat, address: nat): nat {
    if d == 0 then 0
    else
      var left := 2 * LeafAt((n + 1) / 2, d - 1, address / 2);
      if address % 2 == 1 && left + 1 < n then left + 1 else left
  }

  lemma {:induction false} LeafAtInRange(h: Hasher, leaves: seq<Hash>, layers: seq<seq<Hash>>, address: nat)
    requires IsLayers(h, leaves, layers)
    ensures LeafAt(|leaves|, |layers| - 1, address) < |leaves|
    decreases |layers|
  {
    if 1 < |layers| {
      UpperLayers(h, leaves, layers);
      LeafAtInRange(h, layers[1], layers[1..], address / 2);
    }
  }

  /** Every leaf has its index for an address. */
  lemma {:induction false} LeafAtOwnIndex(h: Hasher, leaves: seq<Hash>, layers: seq<seq<Hash>>, i: nat)
    requires IsLayers(h, leaves, layers) && i < |leaves|
    ensures LeafAt(|leaves|, |layers| - 1, i) == i
    decreases |layers|
  {
    if 1 < |layers| {
      UpperLayers(h, leaves, layers);
      LeafAtOwnIndex(h, layers[1], layers[1..], i / 2);
    }
  }

  /** Two leaf lists under `d + 1` layers agree once unpaired last nodes are repeated on every layer. */
  ghost predicate AgreePadded(a: seq<Hash>, b: seq<Hash>, d: nat) {
    forall address: nat :: AgreeAt(a, b, d, address)
  }

  ghost predicate AgreeAt(a: seq<Hash>, b: seq<Hash>, d: nat, address: nat) {
    var i, j := LeafAt(|a|, d, address), LeafAt(|b|, d, address);
    i < |a| && j < |b| && a[i] == b[j]
  }

  /** At one address the two lists agree as long as the pairs above that address agree. */
  lemma AgreeBelow(h: Hasher, a: seq<Hash>, b: seq<Hash>, la: seq<seq<Hash>>, lb: seq<seq<Hash>>, address: nat)
    requires IsLayers(h, a, la) && IsLayers(h, b, lb) && 1 < |la| == |lb|
    requires var i, j := LeafAt(|la[1]|, |la| - 2, address / 2), LeafAt(|lb[1]|, |la| - 2, address / 2);
      2 * i < |a| && 2 * j < |b| && PairAt(a, i) == PairAt(b, j)
    ensures AgreeAt(a, b, |la| - 1, address)
  {
    UpperLayers(h, a, la);
    UpperLayers(h, b, lb);
  }

  /** Where both children of an address agree, so do the parents. */
  lemma AgreeAbove(h: Hasher, a: seq<Hash>, b: seq<Hash>, la: seq<seq<Hash>>, lb: seq<seq<Hash>>, address: nat)
    requires IsLayers(h, a, la) && IsLayers(h, b, lb) && 1 < |la| == |lb|
    requires AgreeAt(a, b, |la| - 1, 2 * address) && AgreeAt(a, b, |la| - 1, 2 * address + 1)
    ensures AgreeAt(la[1], lb[1], |la| - 2, address)
  {
    UpperLayers(h, a, la);
    UpperLayers(h, b, lb);
    LeafAtInRange(h, la[1], la[1..], address);
    LeafAtInRange(h, lb[1], lb[1..], address);
    var i, j := LeafAt(|la[1]|, |la| - 2, address), LeafAt(|lb[1]|, |la| - 2, address);
    assert 2 * address / 2 == address == (2 * address + 1) / 2;
    assert la[1][i] == ParentAt(h, a, i) && lb[1][j] == ParentAt(h, b, j);
  }

  lemma PaddedLayersAgree(h: Hasher, a: seq<Hash>, b: seq<Hash>, la: seq<seq<Hash>>, lb: seq<seq<Hash>>, d: nat)
    requires IsLayers(h, a, la) && IsLayers(h, b, lb) && d + 2 == |la| == |lb|
    requires AgreePadded(a, b, d + 1)
    ensures AgreePadded(la[1], lb[1], d)
  {
    var upperA, upperB := la[1], lb[1];
    forall address: nat ensures AgreeAt(upperA, upperB, d, address) {
      AgreeAbove(h, a, b, la, lb, address);
    }
  }

  /** Leaf lists that agree after padding have one root, whatever their lengths. */
  lemma {:induction false} PaddedAgreementGivesRoot(h: Hasher, a: seq<Hash>, b: seq<Hash>, la: seq<seq<Hash>>,
                                                    lb: seq<seq<Hash>>)
    requires IsLayers(h, a, la) && IsLayers(h, b, lb) && |la| == |lb|
    requires AgreePadded(a, b, |la| - 1)
    ensures la[|la| - 1] == lb[|lb| - 1]
    decreases |la|
  {
    if |la| == 1 {
      assert AgreeAt(a, b, 0, 0);
    } else {
      UpperLayers(h, a, la);
      UpperLayers(h, b, lb);
      PaddedLayersAgree(h, a, b, la, lb, |la| - 2);
      PaddedAgreementGivesRoot(h, la[1], lb[1], la[1..], lb[1..]);
    }
  }

  /** One root over leaf lists that disagree after padding is a collision among the pairs hashed for the two. */
  lemma {:induction false} RootBindsPadded(h: Hasher, a: seq<Hash>, b: seq<Hash>, la: seq<seq<Hash>>,
                                           lb: seq<seq<Hash>>, address: nat)
    returns (p: (Hash, Hash), q: (Hash, Hash))
    requires IsLayers(h, a, la) && IsLayers(h, b, lb) && |la| == |lb|
    requires la[|la| - 1] == lb[|lb| - 1] && !AgreeAt(a, b, |la| - 1, address)
    ensures IsPairOf(la, p) && IsPairOf(lb, q) && Collide(h, p, q)
    decreases |la|
  {
    if 1 < |la| {
      UpperLayers(h, a, la);
      UpperLayers(h, b, lb);
      LeafAtInRange(h, la[1], la[1..], address / 2);
      LeafAtInRange(h, lb[1], lb[1..], address / 2);
      if AgreeAt(la[1], lb[1], |la| - 2, address / 2) {
        var i, j := LeafAt(|la[1]|, |la| - 2, address / 2), LeafAt(|lb[1]|, |la| - 2, address / 2);
        p, q := PairAt(a, i), PairAt(b, j);
        LowestPair(la, i);
        LowestPair(lb, j);
        assert la[1][i] == ParentAt(h, a, i) && lb[1][j] == ParentAt(h, b, j);
        if p == q { AgreeBelow(h, a, b, la, lb, address); }
      } else {
        p, q := RootBindsPadded(h, la[1], lb[1], la[1..], lb[1..], address / 2);
        UpperPair(la, p);
        UpperPair(lb, q);
      }
    }
  }

  /** No pair hashed for one tree collides with one hashed for the other. */
  ghost predicate NoCollision(h: Hasher, la: seq<seq<Hash>>, lb: seq<seq<Hash>>) {
    forall p, q :: IsPairOf(la, p) && IsPairOf(lb, q) ==> !Collide(h, p, q)
  }

  /** Barring a collision among the pairs hashed for the two, trees of one height have one root exactly when their
      leaves agree once unpaired last nodes are repeated on every layer. */
  lemma RootsAgreeExactly(h: Hasher, a: seq<Hash>, b: seq<Hash>, la: seq<seq<Hash>>, lb: seq<seq<Hash>>)
    requires IsLayers(h, a, la) && IsLayers(h, b, lb) && |la| == |lb| && NoCollision(h, la, lb)
    ensures la[|la| - 1] == lb[|lb| - 1] <==> AgreePadded(a, b, |la| - 1)
  {
    if AgreePadded(a, b, |la| - 1) {
      PaddedAgreementGivesRoot(h, a, b, la, lb);
    } else if la[|la| - 1] == lb[|lb| - 1] {
      var address: nat :| !AgreeAt(a, b, |la| - 1, address);
      var p, q := RootBindsPadded(h, a, b, la, lb, address);
    }
  }

  /** Trees over equally many leaves have equally many layers. */
  lemma {:induction false} EqualLengthsEqualHeights(h: Hasher, a: seq<Hash>, b: seq<Hash>, la: seq<seq<Hash>>,
                                                    lb: seq<seq<Hash>>)
    requires |a| == |b| && IsLayers(h, a, la) && IsLayers(h, b, lb)
    ensures |la| == |lb|
    decreases |la|
  {
    if 1 < |la| && 1 < |lb| {
      UpperLayers(h, a, la);
      UpperLayers(h, b, lb);
      EqualLengthsEqualHeights(h, la[1], lb[1], la[1..], lb[1..]);
    }
  }

  /** Binding: one root over different leaf lists of one length is a collision among the pairs hashed for the two. */
  lemma RootBindsLeaves(h: Hasher, a: seq<Hash>, b: seq<Hash>, la: seq<seq<Hash>>, lb: seq<seq<Hash>>)
    returns (p: (Hash, Hash), q: (Hash, Hash))
    requires |a| == |b| && a != b && IsLayers(h, a, la) && IsLayers(h, b, lb)
    requires la[|la| - 1] == lb[|lb| - 1]
    ensures IsPairOf(la, p) && IsPairOf(lb, q) && Collide(h, p, q)
  {
    EqualLengthsEqualHeights(h, a, b, la, lb);
    var i :| 0 <= i < |a| && a[i] != b[i];
    LeafAtOwnIndex(h, a, la, i);
    LeafAtOwnIndex(h, b, lb, i);
    p, q := RootBindsPadded(h, a, b, la, lb, i);
  }

  /** The length matters: a last leaf without a partner may be repeated without changing the root. */
  lemma OddLengthsCollide(h: Hasher, leaves: seq<Hash>, layers: seq<seq<Hash>>)
    requires |leaves| % 2 == 1 && 1 < |leaves| && IsLayers(h, leaves, layers)
    ensures IsLayers(h, leaves + [leaves[|leaves| - 1]], [leaves + [leaves[|leaves| - 1]]] + layers[1..])
  {
    var longer := leaves + [leaves[|leaves| - 1]];
    var layers' := [longer] + layers[1..];
    UpperLayers(h, leaves, layers);
    forall i: nat | i < |layers[1]| ensures layers[1][i] == ParentAt(h, longer, i) {
      assert layers[1][i] == ParentAt(h, leaves, i);
    }
    assert forall k :: 1 <= k < |layers'| ==> layers'[k] == layers[k];
  }

  /** The pair a step of a fold hashes. */
  function StepPair(node: Hash, step: Step): (Hash, Hash) {
    if step.side == Left then (step.sibling, node) else (node, step.sibling)
  }

  /** The pair is hashed while folding the proof from `x`. */
  ghost predicate IsPairOfFold(h: Hasher, x: Hash, proof: seq<Step>, p: (Hash, Hash))
    decreases |proof|
  {
    && proof != []
    && var first := StepPair(x, proof[0]);
      p == first || IsPairOfFold(h, h.parent(first.0, first.1), proof[1..], p)
  }

  /** Binding of proofs: a proof with the sides of index `i` that folds to the root either starts from leaf `i` and is
      the generated proof, or it hashes a pair that collides with one hashed for the tree. */
  lemma {:induction false} ProofBindsLeaf(h: Hasher, leaves: seq<Hash>, layers: seq<seq<Hash>>, i: nat,
                                          x: Hash, proof: seq<Step>)
    returns (p: (Hash, Hash), q: (Hash, Hash))
    requires IsLayers(h, leaves, layers) && i < |leaves|
    requires |proof| == |layers| - 1 && SidesAsIndex(Sides(proof)) == i
    requires Fold(h, x, proof) == layers[|layers| - 1][0]
    requires x != leaves[i] || !IsProof(layers, i, proof)
    ensures IsPairOf(layers, p) && IsPairOfFold(h, x, proof, q) && Collide(h, p, q)
    decreases |layers|
  {
    if 1 < |layers| {
      UpperLayers(h, leaves, layers);
      StepReachesParent(h, leaves, layers[1], i);
      assert Sides(proof)[1..] == Sides(proof[1..]) && Sides(proof)[0] == proof[0].side;
      assert SidesAsIndex(Sides(proof[1..])) == i / 2;
      q := StepPair(x, proof[0]);
      var up := h.parent(q.0, q.1);
      if up != layers[1][i / 2] || !IsProof(layers[1..], i / 2, proof[1..]) {
        p, q := ProofBindsLeaf(h, layers[1], layers[1..], i / 2, up, proof[1..]);
        UpperPair(layers, p);
      } else {
        p := PairAt(leaves, i / 2);
        LowestPair(layers, i / 2);
        assert layers[1][i / 2] == ParentAt(h, leaves, i / 2);
        SamePairIsSameStep(leaves, i, x, proof[0]);
      }
    }
  }

  /** A step on the side of index `i` that hashes the tree's pair starts from leaf `i` and is the tree's step. */
  lemma SamePairIsSameStep(layer: seq<Hash>, i: nat, x: Hash, step: Step)
    requires i < |layer| && (step.side == Left <==> i % 2 == 1)
    ensures StepPair(x, step) == PairAt(layer, i / 2) ==> x == layer[i] && step == StepAt(layer, i)
  {
  }
}
