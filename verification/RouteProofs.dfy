/** Route-template tables, their proof receipts, and the verification of receipts. */
module RouteProofs {
  import opened Wrappers
  import opened Hex
  import opened Merkle

  // ---------- Artifacts ----------

  datatype RouteLeaf = Template(actor: string, templateId: string) | RouteFamily(familyId: string, proofId: string)

  datatype TableEntry = TableEntry(index: nat, offset: nat, leaf: RouteLeaf)

  datatype RouteTable = RouteTable(id: string, state: string, field: string, byteLen: nat, entries: seq<TableEntry>)

  datatype ProofStep = ProofStep(side: Side, hashHex: string)

  datatype ProofLeaf = ProofLeaf(index: nat, leaf: RouteLeaf, hashHex: string, proof: seq<ProofStep>)

  datatype RouteProof = RouteProof(
    id: string, tableId: string, state: string, field: string, rootHex: string, leaves: seq<ProofLeaf>)

  datatype TemplateHash = TemplateHash(actor: string, hash: Hash)

  type Templates = map<string, TemplateHash>

  datatype TemplatePlanError =
    | MissingRouteTableTemplate(id: string, actor: string, templateId: string)
    | RouteTableTemplateMismatch(id: string, actor: string, templateId: string, templateActor: string)
    | RouteTableFamilyProofMismatch(id: string, familyId: string, proofId: string)
    | InvalidHex(id: string)
    | RouteProofTableMismatch(id: string, tableId: string)
    | RouteProofRootMismatch(id: string, expected: string, found: string)
    | RecursiveRouteFamilyLeaf(id: string, familyId: string)
    | RouteProofLeafHashMismatch(id: string, index: nat, expected: string, found: string)
    | RouteProofMismatch(id: string, index: nat, expected: string, found: string)

  function ProofReceiptId(state: string, field: string): string {
    "route_proof/" + state + "/" + field
  }

  function DecodeHash(id: string, hex: string): Result<Hash, TemplatePlanError> {
    match Decode(hex)
    case Some(bytes) => if |bytes| == HASH_SIZE then Ok(bytes) else Err(InvalidHex(id))
    case None => Err(InvalidHex(id))
  }

  lemma DecodeEncodedHash(id: string, hash: Hash)
    ensures DecodeHash(id, Encode(hash)) == Ok(hash)
  {
    DecodeEncode(hash);
  }

  // ---------- Leaf hashes ----------

  /** The hash a table leaf commits to: a template's hash, or another proof's root. */
  function LeafHash(tableId: string, leaf: RouteLeaf, templates: Templates, digestRoots: map<string, string>):
    Result<Hash, TemplatePlanError>
  {
    match leaf
    case Template(actor, templateId) =>
      if templateId !in templates then Err(MissingRouteTableTemplate(tableId, actor, templateId))
      else if templates[templateId].actor != actor then
        Err(RouteTableTemplateMismatch(tableId, actor, templateId, templates[templateId].actor))
      else Ok(templates[templateId].hash)
    case RouteFamily(familyId, proofId) =>
      if proofId !in digestRoots then Err(RouteTableFamilyProofMismatch(tableId, familyId, proofId))
      else DecodeHash(proofId, digestRoots[proofId])
  }

  ghost predicate AreLeafHashes(table: RouteTable, templates: Templates, digestRoots: map<string, string>,
                                hashes: seq<Hash>) {
    && |hashes| == |table.entries|
    && forall i :: 0 <= i < |hashes| ==> LeafHash(table.id, table.entries[i].leaf, templates, digestRoots) == Ok(hashes[i])
  }

  lemma LeafHashesAreUnique(table: RouteTable, templates: Templates, digestRoots: map<string, string>, a: seq<Hash>,
                            b: seq<Hash>)
    requires AreLeafHashes(table, templates, digestRoots, a) && AreLeafHashes(table, templates, digestRoots, b)
    ensures a == b
  {
    forall i | 0 <= i < |a| ensures a[i] == b[i] {
      assert LeafHash(table.id, table.entries[i].leaf, templates, digestRoots) == Ok(a[i]);
    }
  }

  /** The error of the first entry whose leaf hash is undefined. */
  ghost predicate IsLeafHashError(table: RouteTable, templates: Templates, digestRoots: map<string, string>,
                                  e: TemplatePlanError) {
    exists i :: 0 <= i < |table.entries|
      && LeafHash(table.id, table.entries[i].leaf, templates, digestRoots) == Err(e)
      && forall j :: 0 <= j < i ==> LeafHash(table.id, table.entries[j].leaf, templates, digestRoots).Ok?
  }

  method LeafHashes(table: RouteTable, templates: Templates, digestRoots: map<string, string>)
    returns (r: Result<seq<Hash>, TemplatePlanError>)
    ensures r.Ok? ==> AreLeafHashes(table, templates, digestRoots, r.value)
    ensures r.Err? ==> IsLeafHashError(table, templates, digestRoots, r.error)
  {
    var hashes: seq<Hash> := [];
    for i := 0 to |table.entries|
      invariant |hashes| == i
      invariant forall j :: 0 <= j < i ==> LeafHash(table.id, table.entries[j].leaf, templates, digestRoots) == Ok(hashes[j])
    {
      var hash := LeafHash(table.id, table.entries[i].leaf, templates, digestRoots);
      if hash.Err? {
        return Err(hash.error);
      }
      hashes := hashes + [hash.value];
    }
    return Ok(hashes);
  }

  // ---------- The proof receipt of a table ----------

  /** The hash of nothing for an empty table, and otherwise the top of the layers. */
  ghost predicate IsRoot(h: Hasher, hashes: seq<Hash>, root: Hash) {
    if hashes == [] then root == h.empty
    else exists layers :: IsLayers(h, hashes, layers) && root == layers[|layers| - 1][0]
  }

  ghost predicate AreEncoded(steps: seq<Step>, encoded: seq<ProofStep>) {
    && |encoded| == |steps|
    && forall k :: 0 <= k < |steps| ==> encoded[k] == ProofStep(steps[k].side, Encode(steps[k].sibling))
  }

  /** The Merkle proof of one position, with its hashes in hexadecimal. */
  ghost predicate IsEncodedProof(h: Hasher, hashes: seq<Hash>, i: nat, encoded: seq<ProofStep>) {
    exists layers, steps :: IsLayers(h, hashes, layers) && IsProof(layers, i, steps) && AreEncoded(steps, encoded)
  }

  /** The leaf receipt of position `i`. */
  ghost predicate IsProofLeaf(h: Hasher, table: RouteTable, hashes: seq<Hash>, i: nat, leaf: ProofLeaf)
    requires i < |hashes| && i < |table.entries|
  {
    && leaf.index == table.entries[i].index && leaf.leaf == table.entries[i].leaf
    && leaf.hashHex == Encode(hashes[i])
    && IsEncodedProof(h, hashes, i, leaf.proof)
  }

  ghost predicate BelongsTo(proof: RouteProof, table: RouteTable) {
    && proof.id == ProofReceiptId(table.state, table.field)
    && proof.tableId == table.id && proof.state == table.state && proof.field == table.field
    && |proof.leaves| == |table.entries|
  }

  /** The proof receipt of a table whose leaf hashes are defined. */
  ghost predicate IsTableProof(h: Hasher, table: RouteTable, templates: Templates, digestRoots: map<string, string>,
                               proof: RouteProof) {
    exists hashes :: AreLeafHashes(table, templates, digestRoots, hashes) && IsProofOver(h, table, hashes, proof)
  }

  ghost predicate IsProofOver(h: Hasher, table: RouteTable, hashes: seq<Hash>, proof: RouteProof) {
    && BelongsTo(proof, table) && |hashes| == |table.entries|
    && (exists root: Hash :: IsRoot(h, hashes, root) && proof.rootHex == Encode(root))
    && forall i :: 0 <= i < |proof.leaves| ==> IsProofLeaf(h, table, hashes, i, proof.leaves[i])
  }

  lemma {:induction false} ProofIsUnique(layers: seq<seq<Hash>>, i: nat, a: seq<Step>, b: seq<Step>)
    requires IsProof(layers, i, a) && IsProof(layers, i, b)
    ensures a == b
    decreases |layers|
  {
    if 1 < |layers| {
      ProofIsUnique(layers[1..], i / 2, a[1..], b[1..]);
      assert a == [a[0]] + a[1..] && b == [b[0]] + b[1..];
    }
  }

  lemma EncodedProofIsUnique(h: Hasher, hashes: seq<Hash>, i: nat, a: seq<ProofStep>, b: seq<ProofStep>)
    requires IsEncodedProof(h, hashes, i, a) && IsEncodedProof(h, hashes, i, b)
    ensures a == b
  {
    var la, sa :| IsLayers(h, hashes, la) && IsProof(la, i, sa) && AreEncoded(sa, a);
    var lb, sb :| IsLayers(h, hashes, lb) && IsProof(lb, i, sb) && AreEncoded(sb, b);
    LayersAreUnique(h, hashes, la, lb);
    ProofIsUnique(la, i, sa, sb);
  }

  lemma RootIsUnique(h: Hasher, hashes: seq<Hash>, a: Hash, b: Hash)
    requires IsRoot(h, hashes, a) && IsRoot(h, hashes, b)
    ensures a == b
  {
    if hashes != [] {
      var la :| IsLayers(h, hashes, la) && a == la[|la| - 1][0];
      var lb :| IsLayers(h, hashes, lb) && b == lb[|lb| - 1][0];
      LayersAreUnique(h, hashes, la, lb);
    }
  }

  /** A table has one proof receipt. */
  lemma TableProofIsUnique(h: Hasher, table: RouteTable, templates: Templates, digestRoots: map<string, string>,
                           a: RouteProof, b: RouteProof)
    requires IsTableProof(h, table, templates, digestRoots, a) && IsTableProof(h, table, templates, digestRoots, b)
    ensures a == b
  {
    var x :| AreLeafHashes(table, templates, digestRoots, x) && IsProofOver(h, table, x, a);
    var y :| AreLeafHashes(table, templates, digestRoots, y) && IsProofOver(h, table, y, b);
    LeafHashesAreUnique(table, templates, digestRoots, x, y);
    var r: Hash :| IsRoot(h, x, r) && a.rootHex == Encode(r);
    var s: Hash :| IsRoot(h, y, s) && b.rootHex == Encode(s);
    RootIsUnique(h, x, r, s);
    ProofLeavesAreUnique(h, table, x, a.leaves, b.leaves);
  }

  lemma ProofLeavesAreUnique(h: Hasher, table: RouteTable, hashes: seq<Hash>, a: seq<ProofLeaf>, b: seq<ProofLeaf>)
    requires |a| == |b| == |table.entries| == |hashes|
    requires forall i :: 0 <= i < |a| ==> IsProofLeaf(h, table, hashes, i, a[i]) && IsProofLeaf(h, table, hashes, i, b[i])
    ensures a == b
  {
    forall i | 0 <= i < |a| ensures a[i] == b[i] {
      EncodedProofIsUnique(h, hashes, i, a[i].proof, b[i].proof);
    }
  }

  method RootHex(h: Hasher, hashes: seq<Hash>, layers: seq<seq<Hash>>) returns (hex: string, ghost root: Hash)
    requires if hashes == [] then layers == [] else IsLayers(h, hashes, layers)
    ensures IsRoot(h, hashes, root) && hex == Encode(root)
  {
    if layers == [] {
      return Encode(h.empty), h.empty;
    }
    return Encode(layers[|layers| - 1][0]), layers[|layers| - 1][0];
  }

  method EncodedProof(h: Hasher, hashes: seq<Hash>, layers: seq<seq<Hash>>, i: nat)
    returns (encoded: seq<ProofStep>, ghost steps: seq<Step>)
    requires i < |hashes| && IsLayers(h, hashes, layers)
    ensures IsProof(layers, i, steps) && AreEncoded(steps, encoded)
  {
    var proof := MerkleProof(h, hashes, layers, i);
    encoded := [];
    for k := 0 to |proof|
      invariant |encoded| == k
      invariant forall j :: 0 <= j < k ==> encoded[j] == ProofStep(proof[j].side, Encode(proof[j].sibling))
    {
      encoded := encoded + [ProofStep(proof[k].side, Encode(proof[k].sibling))];
    }
    steps := proof;
  }

  /** The leaf receipts of all positions. */
  method ProofLeaves(h: Hasher, table: RouteTable, hashes: seq<Hash>, layers: seq<seq<Hash>>)
    returns (leaves: seq<ProofLeaf>)
    requires |hashes| == |table.entries| && (hashes != [] ==> IsLayers(h, hashes, layers))
    ensures |leaves| == |table.entries|
    ensures forall i :: 0 <= i < |leaves| ==> IsProofLeaf(h, table, hashes, i, leaves[i])
  {
    leaves := [];
    for i := 0 to |table.entries|
      invariant |leaves| == i
      invariant forall j :: 0 <= j < i ==> IsProofLeaf(h, table, hashes, j, leaves[j])
    {
      var encoded, steps := EncodedProof(h, hashes, layers, i);
      var entry := table.entries[i];
      var leaf := ProofLeaf(entry.index, entry.leaf, Encode(hashes[i]), encoded);
      assert IsProofLeaf(h, table, hashes, i, leaf);
      leaves := leaves + [leaf];
    }
  }

  /** Build the proof receipt of a table. */
  method ProofFromTable(h: Hasher, table: RouteTable, templates: Templates, digestRoots: map<string, string>)
    returns (r: Result<RouteProof, TemplatePlanError>)
    ensures r.Ok? ==> IsTableProof(h, table, templates, digestRoots, r.value)
    ensures r.Err? ==> IsLeafHashError(table, templates, digestRoots, r.error)
  {
    var hashed := LeafHashes(table, templates, digestRoots);
    if hashed.Err? {
      return Err(hashed.error);
    }
    var hashes := hashed.value;
    var layers := MerkleLayers(h, hashes);
    var rootHex, root := RootHex(h, hashes, layers);
    var leaves := ProofLeaves(h, table, hashes, layers);
    var proof := RouteProof(ProofReceiptId(table.state, table.field), table.id, table.state, table.field, rootHex, leaves);
    assert IsProofOver(h, table, hashes, proof);
    return Ok(proof);
  }

  // ---------- Folding an encoded proof ----------

  ghost predicate Decodes(steps: seq<Step>, encoded: seq<ProofStep>) {
    && |encoded| == |steps|
    && forall k :: 0 <= k < |steps| ==>
      encoded[k].side == steps[k].side && DecodeHash("", encoded[k].hashHex) == Ok(steps[k].sibling)
  }

  lemma DecodeHashIgnoresId(id: string, hex: string)
    ensures DecodeHash(id, hex).Ok? <==> DecodeHash("", hex).Ok?
    ensures DecodeHash(id, hex).Ok? ==> DecodeHash(id, hex) == DecodeHash("", hex)
  {
  }

  lemma {:induction false} FoldOneMore(h: Hasher, leaf: Hash, steps: seq<Step>, step: Step)
    ensures Fold(h, leaf, steps + [step]) ==
      var below := Fold(h, leaf, steps);
      if step.side == Left then h.parent(step.sibling, below) else h.parent(below, step.sibling)
    decreases |steps|
  {
    var all := steps + [step];
    if steps == [] {
      assert all[1..] == [];
    } else {
      var up := if steps[0].side == Left then h.parent(steps[0].sibling, leaf) else h.parent(leaf, steps[0].sibling);
      assert all[1..] == steps[1..] + [step];
      FoldOneMore(h, up, steps[1..], step);
    }
  }

  /** Decode and hash up; every hash must decode. */
  method ProofRoot(h: Hasher, id: string, leafHex: string, proof: seq<ProofStep>)
    returns (r: Result<Hash, TemplatePlanError>)
    ensures r.Err? ==> r.error == InvalidHex(id)
    ensures r.Ok? <==> DecodeHash(id, leafHex).Ok? && exists steps :: Decodes(steps, proof)
    ensures r.Ok? ==> forall steps :: Decodes(steps, proof) ==> r.value == Fold(h, DecodeHash(id, leafHex).value, steps)
  {
    var leaf := DecodeHash(id, leafHex);
    if leaf.Err? {
      return leaf;
    }
    var resolved := leaf.value;
    ghost var decoded: seq<Step> := [];
    for k := 0 to |proof|
      invariant Decodes(decoded, proof[..k])
      invariant resolved == Fold(h, leaf.value, decoded)
    {
      DecodeHashIgnoresId(id, proof[k].hashHex);
      var sibling := DecodeHash(id, proof[k].hashHex);
      if sibling.Err? {
        return Err(sibling.error);
      }
      FoldOneMore(h, leaf.value, decoded, Step(proof[k].side, sibling.value));
      resolved := match proof[k].side
        case Left => h.parent(sibling.value, resolved)
        case Right => h.parent(resolved, sibling.value);
      decoded := decoded + [Step(proof[k].side, sibling.value)];
    }
    assert proof[..|proof|] == proof && Decodes(decoded, proof);
    forall steps: seq<Step> | Decodes(steps, proof) ensures steps == decoded {
      forall k | 0 <= k < |steps| ensures steps[k] == decoded[k] {
        assert DecodeHash("", proof[k].hashHex) == Ok(steps[k].sibling);
      }
    }
    return Ok(resolved);
  }

  /** The generated receipt of a leaf decodes and folds to the root. */
  lemma EncodedProofFolds(h: Hasher, hashes: seq<Hash>, layers: seq<seq<Hash>>, i: nat, encoded: seq<ProofStep>,
                          steps: seq<Step>)
    requires i < |hashes| && IsLayers(h, hashes, layers) && IsProof(layers, i, steps) && AreEncoded(steps, encoded)
    ensures Decodes(steps, encoded)
    ensures Fold(h, hashes[i], steps) == layers[|layers| - 1][0]
  {
    ProofFoldsToRoot(h, hashes, layers, i, steps);
    forall k | 0 <= k < |steps| ensures DecodeHash("", encoded[k].hashHex) == Ok(steps[k].sibling) {
      DecodeEncodedHash("", steps[k].sibling);
    }
  }

  // ---------- Verifying a receipt ----------

  function DigestRoots(proofs: map<string, RouteProof>): map<string, string> {
    map id | id in proofs :: proofs[id].rootHex
  }

  ghost predicate RefersTo(leaf: RouteLeaf, proofId: string) {
    leaf.RouteFamily? && leaf.proofId == proofId
  }

  /** The table has a family leaf that refers to the very proof being verified. */
  ghost predicate IsSelfRecursive(table: RouteTable, proofId: string) {
    exists i :: 0 <= i < |table.entries| && RefersTo(table.entries[i].leaf, proofId)
  }

  /** What is said of leaf receipt `i` is so: it is for another entry, refers back to the proof, carries another hash,
      or carries another proof, the first of these that holds. */
  ghost predicate IsReceiptFault(h: Hasher, proof: RouteProof, table: RouteTable, hashes: seq<Hash>, root: Hash,
                                 i: nat, e: TemplatePlanError)
    requires i < |proof.leaves| == |table.entries| == |hashes|
  {
    var leaf, entry := proof.leaves[i], table.entries[i];
    if leaf.index != entry.index || leaf.leaf != entry.leaf then
      e == RouteProofTableMismatch(proof.id, proof.tableId)
    else if RefersTo(entry.leaf, proof.id) then e == RecursiveRouteFamilyLeaf(proof.id, entry.leaf.familyId)
    else if leaf.hashHex != Encode(hashes[i]) then
      e == RouteProofLeafHashMismatch(proof.id, i, Encode(hashes[i]), leaf.hashHex)
    else
      && !IsEncodedProof(h, hashes, i, leaf.proof)
      && (if exists steps :: Decodes(steps, leaf.proof) then
            e.RouteProofMismatch? && e.id == proof.id && e.index == i && e.expected == Encode(root)
            && FoldsTo(h, hashes[i], leaf.proof, e.found)
          else e == InvalidHex(proof.id))
  }

  /** The decoded proof folds from the leaf to the hash written as `hex`. */
  ghost predicate FoldsTo(h: Hasher, leaf: Hash, proof: seq<ProofStep>, hex: string) {
    exists steps :: Decodes(steps, proof) && hex == Encode(Fold(h, leaf, steps))
  }

  ghost predicate IsReceipt(h: Hasher, proof: RouteProof, table: RouteTable, hashes: seq<Hash>, i: nat)
    requires i < |proof.leaves| == |table.entries| == |hashes|
  {
    IsProofLeaf(h, table, hashes, i, proof.leaves[i]) && !RefersTo(table.entries[i].leaf, proof.id)
  }

  ghost predicate IsFirstReceiptFault(h: Hasher, proof: RouteProof, table: RouteTable, hashes: seq<Hash>, root: Hash,
                                      i: nat, e: TemplatePlanError)
    requires |proof.leaves| == |table.entries| == |hashes|
  {
    && i < |proof.leaves|
    && (forall j :: 0 <= j < i ==> IsReceipt(h, proof, table, hashes, j))
    && IsReceiptFault(h, proof, table, hashes, root, i, e)
  }

  /** What is wrong with a receipt that belongs to its table: its root, or its first wrong leaf. */
  ghost predicate IsContentFault(h: Hasher, proof: RouteProof, table: RouteTable, hashes: seq<Hash>, root: Hash,
                                 e: TemplatePlanError)
    requires |proof.leaves| == |table.entries| == |hashes|
  {
    if proof.rootHex != Encode(root) then e == RouteProofRootMismatch(proof.id, Encode(root), proof.rootHex)
    else exists i: nat :: IsFirstReceiptFault(h, proof, table, hashes, root, i, e)
  }

  /** What is said of a rejected receipt is so: it belongs to another table, a leaf hash of the table is undefined, or
      its content is wrong, the first of these that holds. */
  ghost predicate IsProofFault(h: Hasher, proof: RouteProof, table: RouteTable, templates: Templates,
                               digestRoots: map<string, string>, e: TemplatePlanError) {
    if !BelongsTo(proof, table) then e == RouteProofTableMismatch(proof.id, proof.tableId)
    else if exists hashes :: AreLeafHashes(table, templates, digestRoots, hashes) then
      exists hashes, root: Hash ::
        && AreLeafHashes(table, templates, digestRoots, hashes) && IsRoot(h, hashes, root)
        && IsContentFault(h, proof, table, hashes, root, e)
    else IsLeafHashError(table, templates, digestRoots, e)
  }

  /** Verify one leaf receipt. Its final comparison with the root cannot fail. */
  method VerifyLeaf(h: Hasher, proof: RouteProof, table: RouteTable, hashes: seq<Hash>, layers: seq<seq<Hash>>,
                    root: Hash, i: nat)
    returns (fault: Option<TemplatePlanError>)
    requires i < |proof.leaves| == |table.entries| == |hashes| && IsLayers(h, hashes, layers)
    requires root == layers[|layers| - 1][0]
    ensures fault.None? <==> IsReceipt(h, proof, table, hashes, i)
    ensures fault.Some? ==> IsReceiptFault(h, proof, table, hashes, root, i, fault.value)
  {
    var leaf := proof.leaves[i];
    var entry := table.entries[i];
    if leaf.index != entry.index || leaf.leaf != entry.leaf {
      return Some(RouteProofTableMismatch(proof.id, proof.tableId));
    }
    if leaf.leaf.RouteFamily? && leaf.leaf.proofId == proof.id {
      return Some(RecursiveRouteFamilyLeaf(proof.id, leaf.leaf.familyId));
    }
    var expectedHex := Encode(hashes[i]);
    if leaf.hashHex != expectedHex {
      return Some(RouteProofLeafHashMismatch(proof.id, i, expectedHex, leaf.hashHex));
    }
    var expectedProof, steps := EncodedProof(h, hashes, layers, i);
    assert IsEncodedProof(h, hashes, i, expectedProof);
    if leaf.proof != expectedProof {
      if IsEncodedProof(h, hashes, i, leaf.proof) {
        EncodedProofIsUnique(h, hashes, i, leaf.proof, expectedProof);
      }
      DecodeEncodedHash(proof.id, hashes[i]);
      var resolved := ProofRoot(h, proof.id, leaf.hashHex, leaf.proof);
      if resolved.Err? {
        return Some(resolved.error);
      }
      assert FoldsTo(h, hashes[i], leaf.proof, Encode(resolved.value));
      return Some(RouteProofMismatch(proof.id, i, Encode(root), Encode(resolved.value)));
    }
    DecodeEncodedHash(proof.id, hashes[i]);
    EncodedProofFolds(h, hashes, layers, i, leaf.proof, steps);
    var resolved := ProofRoot(h, proof.id, leaf.hashHex, leaf.proof);
    if resolved.Err? || resolved.value != root {
      assert false;
    }
    return None;
  }

  method VerifyLeaves(h: Hasher, proof: RouteProof, table: RouteTable, hashes: seq<Hash>, layers: seq<seq<Hash>>,
                      root: Hash)
    returns (fault: Option<TemplatePlanError>)
    requires |proof.leaves| == |table.entries| == |hashes|
    requires hashes != [] ==> IsLayers(h, hashes, layers) && root == layers[|layers| - 1][0]
    ensures fault.None? <==>
      && (forall i :: 0 <= i < |proof.leaves| ==> IsProofLeaf(h, table, hashes, i, proof.leaves[i]))
      && !IsSelfRecursive(table, proof.id)
    ensures fault.Some? ==> exists i: nat :: IsFirstReceiptFault(h, proof, table, hashes, root, i, fault.value)
  {
    for i := 0 to |proof.leaves|
      invariant forall j :: 0 <= j < i ==> IsReceipt(h, proof, table, hashes, j)
    {
      fault := VerifyLeaf(h, proof, table, hashes, layers, root, i);
      if fault.Some? {
        assert !IsReceipt(h, proof, table, hashes, i);
        assert IsFirstReceiptFault(h, proof, table, hashes, root, i, fault.value);
        return fault;
      }
    }
    forall j | 0 <= j < |proof.leaves|
      ensures IsProofLeaf(h, table, hashes, j, proof.leaves[j]) && !RefersTo(table.entries[j].leaf, proof.id)
    {
      assert IsReceipt(h, proof, table, hashes, j);
    }
    return None;
  }

  /** Verify a proof receipt against its table: accepted exactly when it is the receipt the
      table's builder makes and no family leaf of the table refers back to it. */
  method VerifyProof(h: Hasher, proof: RouteProof, table: RouteTable, templates: Templates,
                     proofs: map<string, RouteProof>)
    returns (fault: Option<TemplatePlanError>)
    ensures fault.None? <==>
      IsTableProof(h, table, templates, DigestRoots(proofs), proof) && !IsSelfRecursive(table, proof.id)
    ensures fault.Some? ==> IsProofFault(h, proof, table, templates, DigestRoots(proofs), fault.value)
  {
    var expectedId := ProofReceiptId(table.state, table.field);
    if proof.id != expectedId || proof.tableId != table.id || proof.state != table.state || proof.field != table.field
       || |proof.leaves| != |table.entries| {
      return Some(RouteProofTableMismatch(proof.id, proof.tableId));
    }
    var digestRoots := DigestRoots(proofs);
    var hashed := LeafHashes(table, templates, digestRoots);
    if hashed.Err? {
      UndefinedHashHasNoProof(table, templates, digestRoots, hashed.error);
      return Some(hashed.error);
    }
    var hashes := hashed.value;
    var layers := MerkleLayers(h, hashes);
    var expectedHex, root := RootHex(h, hashes, layers);
    ProofsUseTheHashes(h, table, templates, digestRoots, hashes, proof, root);
    if proof.rootHex != expectedHex {
      return Some(RouteProofRootMismatch(proof.id, expectedHex, proof.rootHex));
    }
    DecodeEncodedHash(proof.id, root);
    var decodedRoot := DecodeHash(proof.id, proof.rootHex);
    if hashes != [] {
      RootIsUnique(h, hashes, root, layers[|layers| - 1][0]);
    }
    fault := VerifyLeaves(h, proof, table, hashes, layers, decodedRoot.value);
    assert fault.Some? ==> IsContentFault(h, proof, table, hashes, root, fault.value);
  }

  lemma UndefinedHashHasNoProof(table: RouteTable, templates: Templates, digestRoots: map<string, string>,
                                e: TemplatePlanError)
    requires IsLeafHashError(table, templates, digestRoots, e)
    ensures forall hashes :: !AreLeafHashes(table, templates, digestRoots, hashes)
  {
  }

  /** The receipt of the table is the one over these hashes and this root. */
  lemma ProofsUseTheHashes(h: Hasher, table: RouteTable, templates: Templates, digestRoots: map<string, string>,
                           hashes: seq<Hash>, proof: RouteProof, root: Hash)
    requires AreLeafHashes(table, templates, digestRoots, hashes) && BelongsTo(proof, table) && IsRoot(h, hashes, root)
    ensures IsTableProof(h, table, templates, digestRoots, proof) <==>
      && proof.rootHex == Encode(root)
      && forall i :: 0 <= i < |proof.leaves| ==> IsProofLeaf(h, table, hashes, i, proof.leaves[i])
  {
    if IsTableProof(h, table, templates, digestRoots, proof) {
      var x :| AreLeafHashes(table, templates, digestRoots, x) && IsProofOver(h, table, x, proof);
      LeafHashesAreUnique(table, templates, digestRoots, x, hashes);
      var s: Hash :| IsRoot(h, x, s) && proof.rootHex == Encode(s);
      RootIsUnique(h, hashes, root, s);
    }
    if proof.rootHex == Encode(root) && forall i :: 0 <= i < |proof.leaves| ==> IsProofLeaf(h, table, hashes, i, proof.leaves[i]) {
      assert IsProofOver(h, table, hashes, proof);
    }
  }

  // ---------- What a receipt commits to, without the hashing code ----------

  /** The text spells out 32 bytes. */
  ghost predicate SpellsHash(hex: string) {
    Decode(hex).Some? && |Decode(hex).value| == 32
  }

  /** A leaf has a hash: its template is there and is the actor's, or the proof it refers to is there with a root. */
  ghost predicate HasHash(leaf: RouteLeaf, templates: Templates, roots: map<string, string>) {
    match leaf
    case Template(actor, templateId) => templateId in templates && templates[templateId].actor == actor
    case RouteFamily(_, proofId) => proofId in roots && SpellsHash(roots[proofId])
  }

  /** The error says why the leaf has no hash. */
  ghost predicate IsMissingHash(tableId: string, leaf: RouteLeaf, templates: Templates, roots: map<string, string>,
                                e: TemplatePlanError) {
    match leaf
    case Template(actor, templateId) =>
      if templateId !in templates then e == MissingRouteTableTemplate(tableId, actor, templateId)
      else
        && templates[templateId].actor != actor
        && e == RouteTableTemplateMismatch(tableId, actor, templateId, templates[templateId].actor)
    case RouteFamily(familyId, proofId) =>
      if proofId !in roots then e == RouteTableFamilyProofMismatch(tableId, familyId, proofId)
      else !SpellsHash(roots[proofId]) && e == InvalidHex(proofId)
  }

  lemma LeafHashExactly(tableId: string, leaf: RouteLeaf, templates: Templates, roots: map<string, string>)
    ensures LeafHash(tableId, leaf, templates, roots).Ok? <==> HasHash(leaf, templates, roots)
    ensures forall e :: LeafHash(tableId, leaf, templates, roots) == Err(e) <==> IsMissingHash(tableId, leaf, templates, roots, e)
  {
  }

  /** Leaf hashing fails exactly when some leaf has no hash, and then says why the first such leaf has none. */
  lemma LeafHashingExactly(table: RouteTable, templates: Templates, roots: map<string, string>)
    ensures (exists hashes :: AreLeafHashes(table, templates, roots, hashes)) <==>
              forall i :: 0 <= i < |table.entries| ==> HasHash(table.entries[i].leaf, templates, roots)
    ensures forall e :: IsLeafHashError(table, templates, roots, e) <==> IsFirstMissing(table, templates, roots, e)
  {
    forall i | 0 <= i < |table.entries|
      ensures LeafHash(table.id, table.entries[i].leaf, templates, roots).Ok? <==>
                HasHash(table.entries[i].leaf, templates, roots)
    {
      LeafHashExactly(table.id, table.entries[i].leaf, templates, roots);
    }
    if forall i :: 0 <= i < |table.entries| ==> HasHash(table.entries[i].leaf, templates, roots) {
      var hashes := seq(|table.entries|, i requires 0 <= i < |table.entries| =>
        LeafHash(table.id, table.entries[i].leaf, templates, roots).value);
      assert AreLeafHashes(table, templates, roots, hashes);
    }
    if hashes :| AreLeafHashes(table, templates, roots, hashes) {
      assert forall i :: 0 <= i < |hashes| ==> LeafHash(table.id, table.entries[i].leaf, templates, roots) == Ok(hashes[i]);
    }
    forall e ensures IsLeafHashError(table, templates, roots, e) <==> IsFirstMissing(table, templates, roots, e) {
      FirstMissingIsError(table, templates, roots, e);
    }
  }

  ghost predicate IsFirstMissing(table: RouteTable, templates: Templates, roots: map<string, string>,
                                 e: TemplatePlanError) {
    exists i :: 0 <= i < |table.entries|
      && IsMissingHash(table.id, table.entries[i].leaf, templates, roots, e)
      && forall j :: 0 <= j < i ==> HasHash(table.entries[j].leaf, templates, roots)
  }

  lemma FirstMissingIsError(table: RouteTable, templates: Templates, roots: map<string, string>, e: TemplatePlanError)
    ensures IsLeafHashError(table, templates, roots, e) <==> IsFirstMissing(table, templates, roots, e)
  {
    forall i | 0 <= i < |table.entries|
      ensures LeafHash(table.id, table.entries[i].leaf, templates, roots).Ok? <==>
                HasHash(table.entries[i].leaf, templates, roots)
      ensures LeafHash(table.id, table.entries[i].leaf, templates, roots) == Err(e) <==>
                IsMissingHash(table.id, table.entries[i].leaf, templates, roots, e)
    {
      LeafHashExactly(table.id, table.entries[i].leaf, templates, roots);
    }
  }

  /** Which tables can have no accepted receipt: those that refer to a proof of the receipt's own name. */
  lemma SelfRecursiveExactly(table: RouteTable, proofId: string)
    ensures IsSelfRecursive(table, proofId) <==>
              exists i, familyId :: 0 <= i < |table.entries| && table.entries[i].leaf == RouteFamily(familyId, proofId)
  {
    if i :| 0 <= i < |table.entries| && RefersTo(table.entries[i].leaf, proofId) {
      assert table.entries[i].leaf == RouteFamily(table.entries[i].leaf.familyId, proofId);
    }
    if i, familyId :| 0 <= i < |table.entries| && table.entries[i].leaf == RouteFamily(familyId, proofId) {
      assert RefersTo(table.entries[i].leaf, proofId);
    }
  }

  /** The root of an empty table's receipt is the hash of nothing. */
  lemma EmptyTableRoot(h: Hasher, table: RouteTable, templates: Templates, roots: map<string, string>,
                       proof: RouteProof)
    requires IsTableProof(h, table, templates, roots, proof) && table.entries == []
    ensures proof.leaves == [] && proof.rootHex == Encode(h.empty)
  {
  }

  /** The receipt of a table is filed under its state and field and lists its entries in order; a template's leaf carries
      the template's hash, and a family's leaf the root of the proof it refers to. */
  lemma BuiltReceipt(h: Hasher, table: RouteTable, templates: Templates, roots: map<string, string>, proof: RouteProof,
                     i: nat)
    requires IsTableProof(h, table, templates, roots, proof) && i < |table.entries|
    ensures proof.id == "route_proof/" + table.state + "/" + table.field
    ensures proof.tableId == table.id && proof.state == table.state && proof.field == table.field
    ensures |proof.leaves| == |table.entries|
    ensures proof.leaves[i].index == table.entries[i].index && proof.leaves[i].leaf == table.entries[i].leaf
    ensures match table.entries[i].leaf
            case Template(actor, templateId) =>
              && templateId in templates && templates[templateId].actor == actor
              && proof.leaves[i].hashHex == Encode(templates[templateId].hash)
            case RouteFamily(_, proofId) =>
              && proofId in roots && Decode(roots[proofId]) == Decode(proof.leaves[i].hashHex)
              && Decode(proof.leaves[i].hashHex).Some? && |Decode(proof.leaves[i].hashHex).value| == 32
  {
    var hashes :| AreLeafHashes(table, templates, roots, hashes) && IsProofOver(h, table, hashes, proof);
    assert IsProofLeaf(h, table, hashes, i, proof.leaves[i]);
    assert LeafHash(table.id, table.entries[i].leaf, templates, roots) == Ok(hashes[i]);
    DecodeEncode(hashes[i]);
  }

  /** An accepted receipt is such a receipt: a family's leaf carries the root of the receipt it refers to. */
  lemma AcceptedReceipt(h: Hasher, table: RouteTable, templates: Templates, proofs: map<string, RouteProof>,
                        proof: RouteProof, i: nat)
    requires IsTableProof(h, table, templates, DigestRoots(proofs), proof) && i < |table.entries|
    ensures proof.id == "route_proof/" + table.state + "/" + table.field && |proof.leaves| == |table.entries|
    ensures match table.entries[i].leaf
            case Template(actor, templateId) =>
              && templateId in templates && templates[templateId].actor == actor
              && proof.leaves[i].hashHex == Encode(templates[templateId].hash)
            case RouteFamily(_, proofId) =>
              && proofId in proofs && Decode(proofs[proofId].rootHex) == Decode(proof.leaves[i].hashHex)
              && Decode(proof.leaves[i].hashHex).Some? && |Decode(proof.leaves[i].hashHex).value| == 32
  {
    BuiltReceipt(h, table, templates, DigestRoots(proofs), proof, i);
  }

  /** With its leaf hashes as given, every leaf of a receipt folds to the receipt's root. */
  lemma ReceiptFoldsToRoot(h: Hasher, table: RouteTable, templates: Templates, roots: map<string, string>,
                           proof: RouteProof, i: nat) returns (leaf: Hash, steps: seq<Step>)
    requires IsTableProof(h, table, templates, roots, proof) && i < |table.entries|
    ensures |proof.leaves| == |table.entries|
    ensures Decode(proof.leaves[i].hashHex) == Some(leaf) && Decodes(steps, proof.leaves[i].proof)
    ensures Decode(proof.rootHex) == Some(Fold(h, leaf, steps))
    ensures SidesAsIndex(Sides(steps)) == i
  {
    var hashes :| AreLeafHashes(table, templates, roots, hashes) && IsProofOver(h, table, hashes, proof);
    assert IsProofLeaf(h, table, hashes, i, proof.leaves[i]);
    leaf := hashes[i];
    var layers, generated :| IsLayers(h, hashes, layers) && IsProof(layers, i, generated)
                             && AreEncoded(generated, proof.leaves[i].proof);
    steps := generated;
    EncodedProofFolds(h, hashes, layers, i, proof.leaves[i].proof, steps);
    ProofFoldsToRoot(h, hashes, layers, i, steps);
    var root: Hash :| IsRoot(h, hashes, root) && proof.rootHex == Encode(root);
    RootIsUnique(h, hashes, root, layers[|layers| - 1][0]);
    DecodeEncode(leaf);
    DecodeEncode(root);
  }
}
