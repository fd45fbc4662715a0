# Verified model of the Argent route planner and its neighbours

Argent compiles actor programs to transaction scripts. Each actor carries commitments to the templates of the
actors it may produce, and the compiler, the artifact verifier and the transaction builder have to agree on them.
This project models the algorithms behind that agreement in Dafny and proves what they promise.

- **Commitment forests and cuts** (`Ordering`, `Forests`, `Transitions`, `Replay`). A forest has actor leaves and
  branches; a cut selects nodes of which none is above another. Opening and packing move between cuts; the planner
  decides whether one cut derives another, and with which steps.
- **The route graph** (`RouteGraphs`, `Components`). Emit and consume edges between actors; the needs of every actor,
  computed by one stack traversal each that reuses finished sets; weakly connected components with their gates.
- **The route planner** (`Families`, `ForestBuilding`, `Cuts`, `Planning`, `PlanLaws`, `Selectors`, `RoutePlans`).
  Families become branches, cohorts share a cut, selectors fix table orders. The central theorem,
  `Planning.EmitsAreDerivable`, is that an actor can always derive the cut of anything it emits; `PlanLaws` says exactly
  what each cut selects, of the graph, the families and the cohorts alone.
- **Route-table proofs** (`Hex`, `Merkle`, `RouteProofs`). Merkle layers with odd duplication, the proof builder, the
  fold, and the verifier, which accepts exactly what the builder makes.
- **The app graph** (`AppGraph`). The depth-first dependency planner as a class over its four fields, and its consumer.
- **Template frames** (`TemplateFrames`). The conservative ambiguity rule, and exactly when it is exact.
- **Genesis groups** (`GenesisNames`, `GenesisOutputs`, `GenesisSpawns`). Three output passes that derive covenant IDs
  before the transaction exists, and their agreement with the transaction that results.
- **Editor exports** (`ModuleExports`, `SymbolPaths`). The re-export fixpoint, and name resolution with its guard
  against circles.

Code that loops or updates state is a method with loop invariants, or a class with its fields, and is proved against
a specification that does not mention the loop; what the source promises is then proved of the specification. Where a
definition follows the branches of the code, as for table thresholds, leaf hashes, frames or qualified names, lemmas
beside it say exactly what it amounts to in terms of the inputs alone.
Ordered maps and sets are iterated in their order through `Ordering.Sorted`. Hash functions, script
materialization and actor lookup are arbitrary functions passed as values. No lemma assumes that a hash has no
collisions at all, which is false of hashes of fixed width: binding is stated by exhibiting two inputs that collide,
both of them hashed in the case at hand, and `Merkle.RootsAgreeExactly` excludes collisions only among the pairs hashed
for the two trees it compares.

The documentation of `components` (`src/routing/graph.rs:72-75`) speaks of the domain's actor order; the domain is an
ordered set there, so the order is that of actor names, and `Components.FindComponents` states it as such.

`docs/route-planner.md:180-181` calls the order of a route table canonical. In the code the variants of an accepted
selector come first, in the selector's order, and only the rest follows the domain; `RoutePlans.TablesAreCanonical`
states it so.

Three members show where a law stops, each beside a lemma that says exactly when it holds.
`Merkle.OddLengthsCollide`: the root does not bind the number of leaves. The source compares the number of leaves of a
proof with the table before it compares roots; `Merkle.RootBindsLeaves` is stated for equal lengths, and
`Merkle.RootsAgreeExactly` says for all lengths when two trees of one height share a root.
`TemplateFrames.ConservativeRuleOverrejects`: a pair of frames on which the rule refuses without need;
`TemplateFrames.CollideIffConflictAndOverlapsAgree` says for all frames when that happens.
`SymbolPaths.BadSpellingIsCut`: the editor joins a module key and segments into one text to recognise a circle, and
oddly spelled names can make two queries one text; `SymbolPaths.ResolveSymbolPath` says exactly what is found, and that
nothing is lost under ordinary spelling.

`dafny verify dfyconfig.toml` checks the whole project.

## Model

| member | source | states |
|---|---|---|
| Ordering.OrderIsStrictTotal | src/routing/commitment.rs:174-177 | the lexicographic path order, and the parent-first and child-first step orders, are strict total orders |
| Ordering.LexByFirstDifference | src/routing/commitment.rs:174-177 | one list stands before another exactly when it is a proper prefix of it, or has the smaller number where the two first differ |
| Ordering.ParentsAndChildren | src/routing/commitment.rs:134-149 | a path stands before its extensions in path order and parent-first order, and after them in child-first order |
| Ordering.ExtensionsAreContiguous | src/routing/commitment.rs:174-177 | the extensions of a path are contiguous in lexicographic order: a path between `a` and an extension of `a` extends `a` |
| Ordering.OrderedListIsUnique | src/routing/commitment.rs:134-149 | an ordered list is determined by its elements, so iterating an ordered set has one outcome |
| Forests.CommitmentForest.Node | src/routing/commitment.rs:89-99 | the loop from the root down finds exactly the node the path denotes, or nothing when an index is out of range or a leaf is passed through |
| Forests.NeighboursSuffice | src/routing/commitment.rs:30-45 | in lexicographic order, if no path extends its predecessor then no path of the list extends any other |
| Forests.CommitmentForest.IsValidCut | src/routing/commitment.rs:30-45 | the adjacent-pair test accepts exactly the cuts whose paths all exist and of which none is a prefix of another |
| Forests.CommitmentForest.RootCutCoversAll | src/routing/commitment.rs:24-26 | the fully packed cut is valid and lies above every node |
| Forests.CommitmentForest.OpenPreserves | src/routing/commitment.rs:48-63 | opening a branch keeps the cut valid and covers exactly the same terminals |
| Forests.CommitmentForest.PackPreserves | src/routing/commitment.rs:66-87 | packing a branch keeps the cut valid and covers exactly the same terminals |
| Forests.CommitmentForest.PackUndoesOpen | src/routing/commitment.rs:48-87 | whenever opening succeeds, packing the same branch succeeds and gives the first cut back |
| Forests.CommitmentForest.OpenUndoesPack | src/routing/commitment.rs:48-87 | whenever packing succeeds, opening the same branch succeeds and gives the first cut back |
| Transitions.CollectPackPaths | src/routing/commitment.rs:152-167 | succeeds exactly when the node can be rebuilt from source nodes, and then collects exactly the branches at or below it that lie strictly above a source node |
| Transitions.FindAncestor | src/routing/commitment.rs:106-132 | finds a source node at or above a path exactly when there is one |
| Transitions.PlanSteps | src/routing/commitment.rs:101-133 | the pass over the target paths succeeds exactly when every one is derivable, with the retained, opened and packed path sets described independently of the traversal, each in its order |
| Transitions.Transition | src/routing/commitment.rs:101-150 | gives a transition exactly when every target node is derivable; its lists are the nodes of the retained paths in path order, the opened ones parent-first and the packed ones child-first |
| Replay.TransitionReplays | src/routing/commitment.rs:101-167 | replaying a transition never fails: opening its open list in order and then packing its pack list in order, from the source, ends in a valid cut that contains every target node and covers what the source covered |
| Replay.DerivesIffCovered | src/routing/commitment.rs:101-167 | a transition exists exactly when every terminal below the target lies below the source |
| Replay.DerivesIffLeavesCovered | src/routing/commitment.rs:101-167 | in a forest without empty branches, a transition exists exactly when every leaf below the target lies below the source |
| Replay.DerivesIsPreorder | src/routing/commitment.rs:101-167 | derivability between valid cuts is reflexive and transitive |
| Replay.FullCutDerivesAll | src/routing/commitment.rs:101-167 | a cut covering every terminal derives every valid cut, so two such cuts derive each other |
| Replay.RunPreserves | src/routing/commitment.rs:48-87 | any run of opens and packs, in any order, keeps validity and coverage |
| Replay.DerivesIffReachable | src/routing/commitment.rs:101-167 | the planner misses nothing: a transition exists exactly when some run of opens and packs, in any order, reaches a cut containing every target node |
| Replay.StepsAreUnavoidable | src/routing/commitment.rs:101-150 | the planner does nothing in vain: every run of opens and packs that reaches the target, in any order, opens every branch the transition opens and packs every branch it packs |
| Replay.TargetNodesAreAccounted | src/routing/commitment.rs:101-133 | every target node is retained, or laid bare by opening its parent, or packed itself, and never two of these |
| RouteGraphs.RouteGraph.AddActor | src/routing/graph.rs:16-18 | adds the actor and changes no relation |
| RouteGraphs.RouteGraph.AddEmit | src/routing/graph.rs:21-27 | adds both actors and exactly this emit edge |
| RouteGraphs.RouteGraph.AddConsume | src/routing/graph.rs:30-36 | adds both actors and exactly this consume edge |
| RouteGraphs.RouteGraph.AddEmitClique | src/routing/graph.rs:43-49 | adds exactly the emit edges between distinct members of the subset |
| RouteGraphs.NeedsFollowReach | src/routing/graph.rs:143-153 | whatever a reached actor needs, the actor reaching it needs |
| RouteGraphs.ContributionsReachFar | src/routing/graph.rs:154-191 | if every expanded actor contributed its consumes and targets, or its finished needs when it is a lower actor, everything down a walk is collected; this is why reusing finished sets is sound through cycles |
| RouteGraphs.TraversalIsComplete | src/routing/graph.rs:154-191 | when the stack is empty the collected set is exactly the needs by their path definition |
| RouteGraphs.NeedsOfActor | src/routing/graph.rs:157-187 | one traversal, reusing the finished sets of lower actors, terminates with exactly the needs of its source |
| RouteGraphs.Needs | src/routing/graph.rs:154-191 | every actor gets exactly its direct consumes, every actor reached by a non-empty emit walk, and those actors' direct consumes |
| RouteGraphs.NeedsAreDemand | src/routing/graph.rs:143-153 | needs hold direct consumes, emit targets, and whatever emit targets need |
| RouteGraphs.NeedsAreLeast | src/routing/graph.rs:143-153 | needs are the least such relation: they lie in every relation closed under these three rules |
| Components.EveryActorHasComponent | src/routing/graph.rs:68-75 | every domain actor lies in a weakly connected class of the induced emit graph |
| Components.ClassesMeet | src/routing/graph.rs:68-75 | two classes with a common member are equal, so the classes partition the domain |
| Components.GatesComeFromOutsideDomain | src/routing/graph.rs:57-66 | a member has an incoming edge from outside its component exactly when it has one from outside the domain |
| Components.Discover | src/routing/graph.rs:107-130 | the stack traversal from an unassigned actor collects exactly its class, assigns each member once and leaves earlier components alone |
| Components.FindComponents | src/routing/graph.rs:79-139 | the components are the weakly connected classes, each once, in the order of their least members, and the gates of each are exactly the members with an incoming emit edge from outside it |
| Components.ComponentsAreLeast | src/routing/graph.rs:68-75 | a component is closed over the emit edges inside the domain in both directions, and is the least such set around any of its members |
| Families.ValidateFamilies | src/routing/commitment.rs:521-541 | accepts exactly non-empty, pairwise disjoint families of distinct known actors and indexes every family actor; an error is the first one in scan order |
| Families.ValidateCohorts | src/routing/commitment.rs:544-560 | accepts exactly non-empty, pairwise disjoint sets of known actors and indexes every cohort actor; an error is the first one in scan order |
| PlanLaws.FamiliesAcceptedExactly | src/routing/commitment.rs:521-541 | families are acceptable exactly when, as a set, they are disjoint lists of distinct known actors, none empty, and each is listed once |
| PlanLaws.CohortsAcceptedExactly | src/routing/commitment.rs:544-560 | cohorts are acceptable exactly when, as a set, they are disjoint and non-empty sets of known actors, and each is listed once |
| ForestBuilding.BuildCommitmentForest | src/routing/commitment.rs:432-468 | the forest depends on the actors and on the set of families only, not on how the families are listed, and every actor and family is recorded at its path |
| ForestBuilding.RootsHoldFamily | src/routing/commitment.rs:432-468 | a family with a member among the actors has a branch among the roots, its children in the family's order |
| ForestBuilding.FamilyChild | src/routing/commitment.rs:454-464 | a recorded family path resolves to the branch of the family, and child `j` of it to the leaf of actor `j` |
| ForestBuilding.PathKinds | src/routing/commitment.rs:432-468 | every existing path is a standalone actor's leaf, a family's branch, or a child of one |
| ForestBuilding.EachActorHasOneLeaf | src/routing/commitment.rs:432-468 | a path resolves to an actor's leaf exactly when it is that actor's recorded path: each actor is in exactly one leaf |
| ForestBuilding.EveryActorHasRoot | src/routing/commitment.rs:432-468 | every actor stands at a root, alone when it is in no family and otherwise with its whole family, in the family's order |
| ForestBuilding.RootsFollowLeastActors | src/routing/commitment.rs:439-446 | of any two roots the earlier one stands for the lesser least actor, and no actor stands at both |
| Cuts.CutForIsValid | src/routing/commitment.rs:482-518 | the cut selected for needs and exposed actors is valid |
| Cuts.FamilyIsOpenPackedOrAbsent | src/routing/commitment.rs:498-518 | in such a cut a family is open with all its children when one of its actors is exposed, only its packed branch when one is merely needed, and absent otherwise |
| Cuts.NeedsAreCovered | src/routing/commitment.rs:482-518 | the leaf of an exposed actor is selected and the leaf of a needed actor is covered |
| Cuts.SelectedRootHolds | src/routing/commitment.rs:482-518 | nothing is selected under a root that holds neither a need nor an exposed actor |
| Cuts.SmallerDemandDerives | src/routing/commitment.rs:482-518 | the cut of a smaller demand derives from the cut of a larger one, however differently the two open their families |
| Cuts.SelectedByLocation | src/routing/commitment.rs:482-518 | the selected paths are exactly the located leaves of shown standalone actors, branches of packed families and children of open families |
| Cuts.ExposeActors | src/routing/commitment.rs:498-518 | exposing actors one by one in name order replaces each touched family's branch by its leaves once and adds standalone leaves, giving exactly the cut for those exposed actors |
| Cuts.CutFor | src/routing/commitment.rs:482-518 | direct translation of needs followed by exposure computes exactly the selected set |
| Planning.CliqueGraph | src/routing/commitment.rs:367-372 | the working copy has exactly the graph's edges and an emit edge between every two members of a cohort; the graph itself is unchanged |
| Planning.CohortNeedsAreEqual | src/routing/commitment.rs:396-401 | after the cliques are added all members of a cohort have equal needs |
| Planning.CohortsShareCuts | src/routing/commitment.rs:396-412 | all members of a cohort have one cut |
| Planning.PlannedCutsAreValid | src/routing/commitment.rs:386-412 | every planned cut is valid |
| Planning.EmitterNeedsMore | src/routing/commitment.rs:360-415 | what an emitted actor needs and holds open is among the needs of its emitter, also into and out of cohorts |
| Planning.EmitsAreDerivable | docs/route-planner.md:182-186 | the promise of the planner, for every graph and all accepted families and cohorts: along every emit edge the emitter's cut derives the emitted actor's cut |
| Planning.PlanIsUnique | src/routing/commitment.rs:325-335 | a plan is determined by the graph and the sets of families and cohorts: permuting either list changes neither the forest nor any cut |
| PlanLaws.HeldOpenIsShown | src/routing/commitment.rs:386-412 | in every plan, what an actor consumes directly, every actor of its cohort, and what any of these consumes directly has its own leaf in the actor's cut |
| PlanLaws.LeavesShownExactly | src/routing/commitment.rs:386-412 | the leaves of a cut, exactly: a standalone actor's when it is needed in the graph with cliques or held open, a family member's when some member of the family is held open |
| PlanLaws.BranchesShownExactly | src/routing/commitment.rs:386-412 | the branches of a cut, exactly: a family stays packed when some member is needed and none is held open, and then none of its leaves is selected |
| PlanLaws.OnlyLeavesAndBranches | src/routing/commitment.rs:386-412 | a cut selects nothing else: every path of it is an actor's leaf that is needed, held open or in an open family, or a family's branch |
| Planning.PlanCuts | src/routing/commitment.rs:374-412 | every actor gets the cut its needs and exposed actors select, cohorts being settled by their first member; `PlanLaws` says exactly which leaves and branches these cuts hold |
| Planning.PlanCommitments | src/routing/commitment.rs:360-415 | plans exactly when families and cohorts are acceptable, families being checked first; the result is the plan, whose forest and cuts are those described by `PlanLaws` and `ForestBuilding` |
| Planning.PlannedTransition | src/routing/commitment.rs:285-294 | finds the transition between two actors' cuts exactly when it exists, and reports an unknown source before an unknown target before incompatible cuts |
| Selectors.ValidateSelectorRequirements | src/routing/plan.rs:121-156 | accepts exactly the selectors over known domains with their source and at least two distinct variants inside; an error names the first fault in scan order |
| Selectors.SelectorOkExactly | src/routing/plan.rs:126-152 | a selector is acceptable exactly when its domain is known, its source is in it, and its variants are as many different actors of it, two or more |
| Selectors.SelectorPrefixForComponent | src/routing/plan.rs:158-192 | succeeds exactly when the component's selectors stay inside it and agree, with their common variants; an error is the first disagreement |
| Selectors.AgreeExactly | src/routing/plan.rs:158-192 | the selectors of a component are consistent exactly when there is one list, inside the component, that they all ask for |
| RoutePlans.FamilyOfComponent | src/routing/plan.rs:84-112 | the table of a component is the selectors' prefix and then the other non-gate members, or with no selector the non-gate members if there are three members and two table entries; its representative is the first gate, or the first member |
| RoutePlans.PlanDomains | src/routing/plan.rs:76-113 | succeeds exactly when the selectors of every component stay inside it and agree; families and cohorts are then exactly those of the components of all domains, in domain and then component order, and on duplicate-free disjoint domains they satisfy the planner's constraints; an error is that of the first component, in this order, whose selectors disagree |
| RoutePlans.PlanRoutes | src/routing/plan.rs:70-119 | on success the selectors are acceptable and consistent and the result is the commitment plan of the inferred families and cohorts; an error names the first unacceptable selector, else the first component whose selectors disagree, else the first thing wrong with the inferred tables and then cohorts; on duplicate-free domains that share no actor this last case never occurs and success is exact |
| RoutePlans.ComponentsWithFamilies | src/routing/plan.rs:92-112 | on a duplicate-free domain a component has a family exactly when some selector has its source in it, or it has three members of which two are no gates |
| RoutePlans.ComponentHasOneFamily | src/routing/plan.rs:79-112 | no component has two families |
| RoutePlans.FamilyListsComponent | src/routing/plan.rs:84-87 | a family lists its component's members and gates in domain order; its representative is the first gate, or the first member when there is none |
| RoutePlans.CohortsAreComponents | src/routing/plan.rs:80-82 | two different actors share a cohort exactly when they are in one component of some domain |
| RoutePlans.CohortsHaveTwoMembers | src/routing/plan.rs:80-82 | no cohort is a single actor |
| RoutePlans.SelectorsAreServed | src/routing/plan.rs:92-99 | every accepted selector has a family of its component whose table starts with its variants |
| RoutePlans.SelectorsIndexTheForest | src/routing/plan.rs:61-69 | variant `i` of an accepted selector is child `i` of one branch of the planned forest, so enum ordinals index the route table |
| RoutePlans.TablesAreCanonical | docs/route-planner.md:180-181 | every family table has at least two distinct actors, all members: the selectors' variants first and the rest in domain order; the members outside it are exactly the gates that no selector asks for |
| Hex.DecodeEncode | crates/argent-artifact/src/lib.rs:1927-1949 | decoding an encoding gives the bytes back |
| Hex.DecodesExactly | crates/argent-artifact/src/lib.rs:1938-1949 | a text decodes exactly when, put in lower case, it is the encoding of some bytes, and then to those |
| Hex.EncodesInLowerCase | crates/argent-artifact/src/lib.rs:1945-1949 | each byte is written as its two digits, the high one first, from 0 to 9 and then a to f |
| Hex.EncodingIsLowerCase | crates/argent-artifact/src/lib.rs:1945-1949 | every character of an encoding is a digit or a letter from a to f |
| Hex.EncodeIsInjective | crates/argent-artifact/src/lib.rs:1945-1949 | different bytes have different encodings |
| Merkle.MerkleLayers | crates/argent-artifact/src/lib.rs:1866-1883 | the loop gives no layer for no leaves, and otherwise layers that each pair the one below, an unpaired last node with itself, down to a single root |
| Merkle.NodesHashTheirChildren | crates/argent-artifact/src/lib.rs:1866-1883 | node `i` of a layer is the hash of nodes `2i` and `2i + 1` below it, in this order, an unpaired last node standing on both sides |
| Merkle.LayersAreUnique | crates/argent-artifact/src/lib.rs:1866-1883 | leaves have one tree of layers |
| Merkle.MerkleProof | crates/argent-artifact/src/lib.rs:1893-1905 | the loop gives one step per layer below the root, the index halving at each |
| Merkle.ProofFoldsToRoot | crates/argent-artifact/src/lib.rs:1866-1925 | completeness: for every leaf list and index the generated proof folds from that leaf to the root, and its sides spell the index in binary |
| Merkle.RootBindsLeaves | crates/argent-artifact/src/lib.rs:1866-1883 | different leaf lists of one length with one root give a collision: a pair hashed for the one tree and a different pair hashed for the other with the same parent hash |
| Merkle.OddLengthsCollide | crates/argent-artifact/src/lib.rs:1866-1883 | equal length is needed: repeating the last of an odd number of leaves leaves every upper layer unchanged |
| Merkle.PaddedAgreementGivesRoot | crates/argent-artifact/src/lib.rs:1866-1883 | trees of one height whose leaves agree after such repetition have one root, with no assumption on the hash |
| Merkle.RootBindsPadded | crates/argent-artifact/src/lib.rs:1866-1883 | trees of one height with one root whose leaves differ at an address after such repetition give a collision between a pair hashed for the one and a pair hashed for the other |
| Merkle.RootsAgreeExactly | crates/argent-artifact/src/lib.rs:1866-1883 | when no pair hashed for the one tree collides with one hashed for the other, trees of one height, over any numbers of leaves, have one root exactly when their leaves agree once unpaired last nodes are repeated on every layer |
| Merkle.ProofBindsLeaf | crates/argent-artifact/src/lib.rs:1907-1925 | a proof of full length with the sides of index `i` that folds to the root starts from leaf `i` and is the generated proof, or else it hashes a pair that collides with a different pair hashed for the tree |
| RouteProofs.ProofFromTable | crates/argent-artifact/src/lib.rs:1756-1787 | builds the receipt of the table, or reports the first entry whose leaf hash is undefined; `RouteProofs.BuiltReceipt` and `RouteProofs.LeafHashingExactly` say what this means for templates and families |
| RouteProofs.BuiltReceipt | crates/argent-artifact/src/lib.rs:1733-1787 | a receipt is filed under state and field and lists the entries in order; a template's leaf names a known template of that actor and carries its hash in lower-case hexadecimal, and a family's leaf carries the 32-byte root filed under the proof it refers to |
| RouteProofs.LeafHashingExactly | crates/argent-artifact/src/lib.rs:1733-1753 | leaf hashing fails exactly when a template is missing or is another actor's, or a referred proof is missing or has no 32-byte root; the error says which, of the first such entry |
| RouteProofs.ReceiptFoldsToRoot | crates/argent-artifact/src/lib.rs:1756-1787 | every leaf of a receipt decodes with its steps and folds to the receipt's root, the sides spelling its position |
| RouteProofs.EmptyTableRoot | crates/argent-artifact/src/lib.rs:1885-1891 | the receipt of an empty table has the hash of nothing as its root |
| RouteProofs.TableProofIsUnique | crates/argent-artifact/src/lib.rs:1756-1787 | a table, its templates and digest roots have one receipt |
| RouteProofs.ProofRoot | crates/argent-artifact/src/lib.rs:1907-1921 | the fold over encoded steps succeeds exactly when leaf and steps decode, and is then the fold over the decoded steps |
| RouteProofs.EncodedProofFolds | crates/argent-artifact/src/lib.rs:1893-1921 | a generated receipt decodes and folds to the root, so the verifier's last comparison never rejects what passed before it |
| RouteProofs.VerifyLeaf | crates/argent-artifact/src/lib.rs:1821-1860 | accepts exactly the leaf receipt the builder makes, unless its family leaf refers back to the proof; the error is the first that applies of table mismatch, self-reference, leaf hash, undecodable steps and a fold that misses the root, with the expected and found values |
| RouteProofs.VerifyProof | crates/argent-artifact/src/lib.rs:1789-1864 | accepts a proof exactly when it is the receipt built from the table and no family leaf refers back to it; the error is the first that applies of a proof of another table, an undefined leaf hash, a wrong root and the fault of the first wrong leaf |
| RouteProofs.AcceptedReceipt | crates/argent-artifact/src/lib.rs:1733-1809 | in an accepted receipt a family's leaf carries the root of the very receipt it refers to, and a template's leaf the template's hash |
| RouteProofs.SelfRecursiveExactly | crates/argent-artifact/src/lib.rs:1825-1829 | the only receipts refused although they are the table's are those with a family leaf that refers to the receipt's own name |
| AppGraph.AppGraphPlanner.VisitApp | src/compiler/app_graph.rs:69-86 | a visit keeps the search invariant (the stack is a path of the active apps, the order is a topological order of the complete ones, one source per name), completes its app, keeps every earlier mark and extends the order; it terminates, and a fault it returns is real |
| AppGraph.AppGraphPlanner.VisitNewApp | src/compiler/app_graph.rs:87-121 | entering, visiting all dependencies and leaving keeps the invariant and appends the app after its dependencies |
| AppGraph.PathsGoDown | src/compiler/app_graph.rs:43-57 | along a dependency path inside a topological order positions go strictly down, so no app of the order lies on a cycle |
| AppGraph.PlannedIsPlannable | src/compiler/app_graph.rs:43-57 | a planned order excludes every fault: a reachable cycle, an unresolved app or a name with two sources never yields success |
| AppGraph.PlanApps | src/compiler/app_graph.rs:43-121 | succeeds exactly when every reachable app resolves, none lies on a dependency cycle and names are unambiguous; the order then holds each reachable app once, after its dependencies, the selected app last; a reported fault is real, and a reported cycle is a dependency cycle |
| AppGraph.BuildAppGraph | src/lib.rs:151-200 | compiles every app of the order against its dependencies' artifacts; on a planned order only a compilation can fail, as no dependency is missing and no name occurs twice; an error names the first unit that fails, the artifacts before it being complete, and why |
| AppGraph.CompiledFromDependencies | src/lib.rs:151-200 | on a plan, the artifact of every app is its compilation from exactly the artifacts of its dependencies, each of them compiled before it |
| TemplateFrames.ScriptShape | crates/argent-artifact/src/template_frames.rs:27-48 | a byte string is a frame around some state bytes exactly when it has the frame's length, starts with its prefix and ends with its suffix |
| TemplateFrames.CollideIffConflictAndOverlapsAgree | crates/argent-artifact/src/template_frames.rs:54-58 | two frames share a script exactly when they conflict and each prefix agrees with the other's suffix where they overlap |
| TemplateFrames.ConservativeRuleIsExact | crates/argent-artifact/src/template_frames.rs:54-58 | when each prefix ends before the other's suffix begins, frames conflict exactly when they share a script |
| TemplateFrames.ConservativeRuleOverrejects | crates/argent-artifact/src/template_frames.rs:199-207 | the rule is conservative beyond that: two frames that conflict and share no script |
| TemplateFrames.SortNoConflicts | crates/argent-artifact/src/template_frames.rs:61-89 | sorting the actors by name neither makes nor hides a conflict |
| TemplateFrames.FindAmbiguity | crates/argent-artifact/src/template_frames.rs:61-89 | the nested pair loop finds the first conflicting pair, or shows there is none |
| TemplateFrames.VerifyFrames | crates/argent-artifact/src/template_frames.rs:61-116 | accepts exactly when every frame can be extracted and no two actors conflict; an error is the first one in name order; `TemplateFrames.FramesExactly` and `TemplateFrames.ScriptsAreInstances` tie the frames to the contracts' bytes |
| TemplateFrames.FramesExactly | crates/argent-artifact/src/template_frames.rs:91-116 | a frame exists exactly when the contract does and its state span ends inside the bytecode and within a machine word, and then has these lengths; otherwise the error is the missing contract or the invalid span with its numbers |
| TemplateFrames.ScriptsAreInstances | crates/argent-artifact/src/template_frames.rs:91-116 | the scripts of an actor's frame are exactly the byte strings of the bytecode's length that agree with it outside the state span |
| TemplateFrames.SortSorts | crates/argent-artifact/src/template_frames.rs:62-63 | frames are taken in name order |
| TemplateFrames.AcceptedScriptsHaveOneActor | crates/argent-artifact/src/template_frames.rs:61-89 | if verification accepts, no byte string is two actors' bytecode with any bytes in place of the state |
| GenesisNames.ParseInvertsPath | crates/argent-runtime/src/resolve.rs:44-63 | a text reads as a group name exactly when it is that name's path and the name is not empty and holds no separator |
| GenesisNames.ParseIsInjective | crates/argent-runtime/src/resolve.rs:65-75 | readable paths that name the same group are the same text |
| GenesisNames.KeysAreOrdered | crates/argent-runtime/src/resolve.rs:65-69 | group keys are ordered by input, then launches before spawns, then by name |
| GenesisNames.NextKey | crates/argent-runtime/src/resolve.rs:65-69 | the least key in the derived order: input first, launches before spawns, then the name |
| GenesisOutputs.CheckGenesis | crates/argent-runtime/src/resolve.rs:204-224 | a genesis declaration is accepted exactly when its state is not deferred, its path is readable, its input exists and, for a spawn, is an actor input declaring that spawn; the error is the first of these that fails |
| GenesisOutputs.FitsExactly | crates/argent-runtime/src/resolve.rs:200-236 | which outputs are accepted, spelled out: no actor without a covenant, only known actors, and a genesis output only with a known state, an existing input, and a text `launch::name` or `spawn::name` of which the latter names a spawn the input declares |
| GenesisOutputs.CollectGroups | crates/argent-runtime/src/resolve.rs:200-236 | succeeds exactly when every output fits and every actor binds; the groups are then exactly the genesis outputs of each key in output order; the error is the first thing wrong with the first output that does not fit |
| GenesisOutputs.DeriveIds | crates/argent-runtime/src/resolve.rs:238-270 | succeeds exactly when every genesis output has a 32-bit index and a script, and stores for each group the ID of its authorizing outpoint and outputs, and nothing else; the error is that of the first unlistable member of the first such group in key order, a missing script being found before an overflowing index |
| GenesisOutputs.ListableExactly | crates/argent-runtime/src/resolve.rs:238-270 | an accepted genesis output can be listed exactly when its index has 32 bits and it pays to a given script or to an actor whose script can be built |
| GenesisOutputs.ContextIsComplete | crates/argent-runtime/src/resolve.rs:238-270 | before any deferred state is evaluated the context holds the ID of every group that has an output, and of no other |
| GenesisOutputs.GenesisContextIsUnique | crates/argent-runtime/src/resolve.rs:238-270 | there is one such context, so what a deferred state is given is determined by the outputs |
| GenesisOutputs.IdIsPresent | crates/argent-runtime/src/resolve.rs:280-282 | the lookup of a genesis output's ID never fails |
| GenesisOutputs.AttachBindings | crates/argent-runtime/src/resolve.rs:272-296 | every output keeps its value and gets its owner and the binding its declaration asks for, deferred states being evaluated against the complete context; an error is that of the first failing state |
| GenesisOutputs.BindOutputs | crates/argent-runtime/src/resolve.rs:200-296 | the three phases succeed exactly when every output fits, every genesis output can be listed and no deferred state fails; the error is that of the first phase that cannot be completed, and there of the first output, group member or deferred state in its order |
| GenesisOutputs.UnsignedOutputs | crates/argent-runtime/src/resolve.rs:343-352 | each transaction output has the value, script and covenant binding of the resolved output |
| GenesisOutputs.OutputsArrive | crates/argent-runtime/src/resolve.rs:272-352 | from declaration to transaction every output keeps its value, carries no covenant, the given one or one of the declared input, and pays to the given script or to its actor's script in the declared or evaluated state |
| GenesisOutputs.IdsAgreeWithOutputs | crates/argent-runtime/src/resolve.rs:238-352 | in the unsigned transaction the covenant ID of each genesis output is the ID function of the authorizing outpoint and exactly its group's outputs at their final indices, values and scripts |
| GenesisOutputs.GroupsCommitApart | crates/argent-runtime/src/resolve.rs:238-352 | genesis outputs commit to the same outpoint and outputs exactly when they declare the same group of the same input |
| GenesisOutputs.SharedIdsMeanOneGroup | crates/argent-runtime/src/resolve.rs:238-352 | genesis outputs of one group have one covenant ID; if outputs of different groups do, the outpoints and outputs the two groups commit to differ and are a collision of the ID function |
| GenesisSpawns.NamedGroup | crates/argent-runtime/src/resolve.rs:735-750 | the later scan finds exactly the outputs the group was collected from, in the same order |
| GenesisSpawns.ResolveGroup | crates/argent-runtime/src/resolve.rs:492-570 | succeeds exactly when the counts agree and every output holds an actor its declaration matches; an error concerns the first output that does not |
| GenesisSpawns.SpawnsFitExactly | crates/argent-runtime/src/resolve.rs:460-570 | the clauses of an input resolve exactly when each has outputs born for it, as many as it declares, every one holding the declared actor, and of any two clauses the earlier one's group starts first |
| GenesisSpawns.ClausesAreDisjoint | crates/argent-runtime/src/resolve.rs:472-484 | distinct spawn clauses of an input that resolves have distinct names and claim disjoint outputs |
| GenesisSpawns.StartsIncrease | crates/argent-runtime/src/resolve.rs:472-480 | groups start in clause order, not only from one clause to the next |
| GenesisSpawns.SpawnsAreFound | crates/argent-runtime/src/resolve.rs:460-490 | every declared output name of every clause leads to the output at that place of the clause's own group, and the table names no other clause |
| GenesisSpawns.ResolveSpawns | crates/argent-runtime/src/resolve.rs:460-490 | succeeds exactly when every clause of every actor input finds its own group in clause order; the error is that of the first clause, of the first input, that does not |
| ModuleExports.ReexportsAreLeast | vscode/argent-syntax/language-service.js:853-892 | names reaching a module along open imports lie in every table that holds owned names and is closed under open imports |
| ModuleExports.Merge | vscode/argent-syntax/language-service.js:882-886 | copies every target of every name and reports a change exactly when one was new |
| ModuleExports.PassOnAll | vscode/argent-syntax/language-service.js:876-890 | a round only adds names that open imports justify; a round without change means every open import passes everything on |
| ModuleExports.BuildModuleExports | vscode/argent-syntax/language-service.js:853-892 | the loop terminates, and a module exposes a target under a name exactly when the module at the end of some chain of open imports owns it |
| ModuleExports.ExposedIsWritten | vscode/argent-syntax/language-service.js:853-892 | a module exposes exactly the targets written, as a declaration or as an aliased import of a known module, in a module at the end of some chain of open imports |
| SymbolPaths.CircleNeverResolves | vscode/argent-syntax/language-service.js:894-899 | a query that comes round to itself never resolves, however many walks it is given |
| SymbolPaths.TextIsInjective | vscode/argent-syntax/language-service.js:895 | two well-spelled queries with one joined text are the same query |
| SymbolPaths.WellSpelledResolveAnew | vscode/argent-syntax/language-service.js:894-899 | if no module key ends in a colon and no segment is empty or holds one, cutting repeated texts loses nothing |
| SymbolPaths.BadSpellingIsCut | vscode/argent-syntax/language-service.js:894-899 | a workspace with a module key ending in a colon where two different queries have one text, and the guard cuts off a resolution that would succeed |
| SymbolPaths.ResolveSymbolPath | vscode/argent-syntax/language-service.js:894-925 | resolution terminates, and finds a target exactly when the same resolution without the set of seen texts would and comes to no text twice on the way; if module keys and segments are well spelled it finds exactly what the unguarded resolution finds |
| SymbolPaths.AliasLeadsToModule | vscode/argent-syntax/language-service.js:910-911 | a name whose only target is an alias leads to that module: what follows is resolved there and nowhere else |
| SymbolPaths.AppLeadsToActor | vscode/argent-syntax/language-service.js:912-920 | a name whose only target is an app, followed by one more, resolves exactly to what the single listed actor ending in that name resolves to in the app's module, if that is an actor |
| SymbolPaths.OtherNamesLeadNowhere | vscode/argent-syntax/language-service.js:902-924 | a first name with no target or several leads nowhere, and so does any other target that more names follow |
| SymbolPaths.PlainNamesAreUnambiguous | vscode/argent-syntax/language-service.js:853-925 | a plain name resolves exactly to the single target that reaches its module along open imports; collisions are never guessed |

## Left out

- Text: names are sequences of bytes or characters; UTF-8, error messages, `Display`, serialisation and `to_snake`.
- Machine integers: widths are modelled where the source checks them (16-bit input indices, 32-bit output indices, the
  frame-length addition); elsewhere lengths and indices are unbounded.
- Real hashing and covenant IDs: arbitrary functions; the domain-separating prefixes of the hash inputs are not modelled.
- Hexadecimal: the library is modelled as a lower-case encoder and a decoder that accepts both cases.
- Ordinary transaction fields: sequences, signatures, payload, the execution of scripts, and the check of actor inputs
  against their UTXO in `unsigned_transaction` (`crates/argent-runtime/src/resolve.rs:318-341`).
- GenesisOutputs.BindOutputs: does not model the binding of inputs to artifact entries, which precedes the outputs;
  inputs arrive with their outpoint and declared spawn clauses.
- GenesisOutputs.DeriveIds: the nested map of IDs is one map keyed by input and name.
- GenesisSpawns.ResolveGroup: the three ways of matching a spawned actor with its declaration are one function of the
  input, the declaration and the contract found.
- Arguments, observations, hidden arguments and leader-input counts of a transaction.
- AppGraph.PlanApps: name resolution is a given map from each app to its dependencies or an error.
- AppGraph.BuildAppGraph: compiling an app, writing its artifact and reading it back are one given function that may
  fail.
- AppGraph.AppGraphPlanner.VisitApp: says nothing of the planner's fields after a fault, as the source then drops it.
- The search for an app by name that precedes planning, and module resolution.
- RoutePlans.PlanRoutes: takes domains inside the graph, as the source's assertion on component domains does.
- Consistency checks of the template plan other than the route proofs, spawn and cardinality checks.
- Forests deeper than two levels are covered by `Forests`, `Transitions` and `Replay`, but the planner never builds one.
- SymbolPaths.ResolveSymbolPath: the names of an app's actors arrive as lists of segments; cutting them at `::` is left
  out.
- The tokenizer, the document scanner and the editor providers.
- The command line, file access and reports.
