/** Genesis outputs: from the caller's declarations to the covenant IDs of the unsigned transaction. */
module GenesisOutputs {
  import opened Wrappers
  import opened Ordering
  import opened GenesisNames

  type u64 = x: nat | x < 0x1_0000_0000_0000_0000

  // Tokens for values of foreign libraries: the model only compares them and passes them on.
  type Outpoint = nat
  type Script = seq<nat>
  type Hash = seq<nat>
  type Contract = nat
  type ActorPath = nat
  type State = nat

  datatype Binding = Binding(authorizingInput: u16, covenantId: Hash)

  /** The genesis covenant IDs a deferred state may look up. */
  type StateContext = map<(u16, string), Hash>

  datatype OutputState = Static(state: State) | Deferred(build: StateContext -> Result<State, string>)

  datatype OutputOwner = Actor(path: ActorPath, state: OutputState) | Spk(script: Script)

  datatype OutputCovenant = Unbound | Existing(binding: Binding) | Genesis(authorizingInput: u16, subgroup: string)

  datatype ContextOutput = ContextOutput(owner: OutputOwner, covenant: OutputCovenant, value: u64)

  /** An output a spawn clause declares: its name and the actor it must hold. */
  datatype SpawnOutput = SpawnOutput(name: string, target: string)

  datatype SpawnClause = SpawnClause(name: string, outputs: seq<SpawnOutput>)

  datatype Input = ActorInput(outpoint: Outpoint, spawns: seq<SpawnClause>) | OrdinaryInput(outpoint: Outpoint)

  /** A transaction output without its covenant: what the covenant ID commits to. */
  datatype PlainOutput = PlainOutput(value: u64, script: Script)

  datatype TxOutput = TxOutput(plain: PlainOutput, covenant: Option<Binding>)

  datatype BoundOwner = BoundActor(contract: Contract, state: OutputState) | BoundSpk(script: Script)

  datatype ResolvedOwner = ResolvedActor(contract: Contract, state: State) | ResolvedSpk(script: Script)

  datatype ResolvedBinding = NoBinding | ExistingBinding(binding: Binding) | GenesisBinding(binding: Binding, group: GroupName)

  datatype ResolvedOutput = ResolvedOutput(owner: ResolvedOwner, binding: ResolvedBinding, value: u64)

  datatype BuilderError =
    | UnknownActor(path: ActorPath)
    | GenesisOutputStateCallback(outputIndex: nat)
    | InvalidGenesisPath(subgroup: string)
    | GenesisAuthorizingInputOutOfRange(authorizingInput: u16, inputCount: nat)
    | SpawnAuthorizingInputNotActor(authorizingInput: u16, spawn: string)
    | UnknownSpawn(authorizingInput: u16, spawn: string)
    | UnboundActorOutput(outputIndex: nat)
    | ScriptFailure(contract: Contract, state: State)
    | GenesisOutputIndexOverflow(outputIndex: nat)
    | OutputStateCallback(outputIndex: nat, source: string)

  /** The artifact bundle and the hash library: actor lookup, the script paying to an
      actor in a state, and the ID of a covenant born from an outpoint with a list of outputs. */
  datatype Builder = Builder(
    bind: ActorPath -> Option<Contract>,
    scriptOf: (Contract, State) -> Option<Script>,
    covenantId: (Outpoint, seq<(nat, PlainOutput)>) -> Hash)

  // ---------- Groups ----------

  /** The first `n` outputs that declare themselves born in group `g` of input `a`, in output order. */
  ghost function MembersUpTo(outputs: seq<ContextOutput>, a: u16, g: string, n: nat): (r: seq<nat>)
    requires n <= |outputs|
    ensures forall j :: j in r <==> 0 <= j < n && outputs[j].covenant == Genesis(a, g)
    ensures forall i :: 0 <= i < |r| ==> r[i] < n
    ensures forall i, j :: 0 <= i < j < |r| ==> r[i] < r[j]
  {
    if n == 0 then []
    else
      var before := MembersUpTo(outputs, a, g, n - 1);
      if outputs[n - 1].covenant == Genesis(a, g) then before + [n - 1] else before
  }

  ghost function Members(outputs: seq<ContextOutput>, a: u16, g: string): (r: seq<nat>)
    ensures forall j :: j in r <==> 0 <= j < |outputs| && outputs[j].covenant == Genesis(a, g)
    ensures forall i, j :: 0 <= i < j < |r| ==> r[i] < r[j]
  {
    MembersUpTo(outputs, a, g, |outputs|)
  }

  predicate Declares(input: Input, spawn: string) {
    input.ActorInput? && exists k :: 0 <= k < |input.spawns| && input.spawns[k].name == spawn
  }

  /** A genesis declaration that can be honoured. */
  ghost predicate GenesisFits(inputs: seq<Input>, owner: OutputOwner, a: u16, g: string) {
    && !(owner.Actor? && owner.state.Deferred?)
    && Parse(g).Ok?
    && a < |inputs|
    && (Parse(g).value.Spawn? ==> Declares(inputs[a], Parse(g).value.name))
  }

  ghost predicate DeclarationFits(inputs: seq<Input>, output: ContextOutput) {
    match output.covenant
    case Genesis(a, g) => GenesisFits(inputs, output.owner, a, g)
    case Unbound => !output.owner.Actor?
    case Existing(_) => true
  }

  ghost predicate Fits(builder: Builder, inputs: seq<Input>, output: ContextOutput) {
    && DeclarationFits(inputs, output)
    && (output.owner.Actor? ==> builder.bind(output.owner.path).Some?)
  }

  ghost predicate IsDeferred(owner: OutputOwner) {
    owner.Actor? && owner.state.Deferred?
  }

  /** What a first-phase error says of output `j` is so, and nothing looked for earlier is wrong with that output. */
  ghost predicate IsFault(builder: Builder, inputs: seq<Input>, output: ContextOutput, j: nat, e: BuilderError) {
    match e
    case GenesisOutputStateCallback(k) => k == j && output.covenant.Genesis? && IsDeferred(output.owner)
    case InvalidGenesisPath(g) =>
      !IsDeferred(output.owner) && output.covenant.Genesis? && output.covenant.subgroup == g && Parse(g).Err?
    case GenesisAuthorizingInputOutOfRange(a, count) =>
      && !IsDeferred(output.owner) && output.covenant.Genesis? && Parse(output.covenant.subgroup).Ok?
      && output.covenant.authorizingInput == a && count == |inputs| <= a
    case SpawnAuthorizingInputNotActor(a, spawn) =>
      IsSpawnDeclaration(inputs, output, a, spawn) && inputs[a].OrdinaryInput?
    case UnknownSpawn(a, spawn) =>
      IsSpawnDeclaration(inputs, output, a, spawn) && inputs[a].ActorInput? && !Declares(inputs[a], spawn)
    case UnboundActorOutput(k) => k == j && output.covenant.Unbound? && output.owner.Actor?
    case UnknownActor(path) =>
      && DeclarationFits(inputs, output)
      && output.owner.Actor? && output.owner.path == path && builder.bind(path).None?
    case _ => false
  }

  /** The output is declared born in the group of a spawn that an existing input is to authorize. */
  ghost predicate IsSpawnDeclaration(inputs: seq<Input>, output: ContextOutput, a: u16, spawn: string) {
    && !IsDeferred(output.owner)
    && output.covenant == Genesis(a, Path(Spawn(spawn))) && Parse(output.covenant.subgroup) == Ok(Spawn(spawn))
    && a < |inputs|
  }

  /** The text names a group: a launch, or a spawn that the input declares. */
  ghost predicate NamesGroup(input: Input, g: string) {
    exists name :: IsGroupText(input, g, name)
  }

  ghost predicate IsGroupText(input: Input, g: string, name: string) {
    && name != "" && !HasSeparator(name)
    && (g == "launch::" + name
        || (g == "spawn::" + name && input.ActorInput? && exists k :: 0 <= k < |input.spawns| && input.spawns[k].name == name))
  }

  /** The actor, if the output is one's, is known. */
  ghost predicate OwnerIsKnown(builder: Builder, owner: OutputOwner) {
    owner.Actor? ==> builder.bind(owner.path).Some?
  }

  /** Which outputs are accepted, spelled out: without a covenant no actor's; otherwise those of known actors; and a genesis
      output only with a known state, an input that exists, and a text that names a group of that input. */
  lemma FitsExactly(builder: Builder, inputs: seq<Input>, output: ContextOutput)
    ensures Fits(builder, inputs, output) <==>
              && OwnerIsKnown(builder, output.owner)
              && match output.covenant
                 case Unbound => output.owner.Spk?
                 case Existing(_) => true
                 case Genesis(a, g) =>
                   && (output.owner.Actor? ==> output.owner.state.Static?)
                   && a < |inputs| && NamesGroup(inputs[a], g)
  {
    if output.covenant.Genesis? && output.covenant.authorizingInput < |inputs| {
      GroupTextExactly(inputs[output.covenant.authorizingInput], output.covenant.subgroup);
    }
  }

  lemma GroupTextExactly(input: Input, g: string)
    ensures NamesGroup(input, g) <==> Parse(g).Ok? && (Parse(g).value.Spawn? ==> Declares(input, Parse(g).value.name))
  {
    if Parse(g).Ok? {
      ParseInvertsPath(g, Parse(g).value);
      assert Declares(input, Parse(g).value.name) || Parse(g).value.Launch? ==> IsGroupText(input, g, Parse(g).value.name);
    }
    if name :| IsGroupText(input, g, name) {
      ParseInvertsPath(g, if g == "launch::" + name then Launch(name) else Spawn(name));
    }
  }

  ghost predicate AllFit(builder: Builder, inputs: seq<Input>, outputs: seq<ContextOutput>, n: nat)
    requires n <= |outputs|
  {
    forall j :: 0 <= j < n ==> Fits(builder, inputs, outputs[j])
  }

  /** The groups of the first `n` outputs: every genesis output under its key, and each key with exactly its members. */
  ghost predicate AreGroups(outputs: seq<ContextOutput>, n: nat, groups: map<GroupKey, seq<nat>>)
    requires n <= |outputs|
  {
    && (forall key :: key in groups ==> IsGroup(outputs, n, key, groups[key]))
    && (forall j {:trigger HasKey(outputs[j].covenant, groups)} ::
          0 <= j < n && outputs[j].covenant.Genesis? ==> HasKey(outputs[j].covenant, groups))
  }

  ghost predicate IsGroup(outputs: seq<ContextOutput>, n: nat, key: GroupKey, members: seq<nat>)
    requires n <= |outputs|
  {
    && WellNamed(key.name)
    && members != []
    && members == MembersUpTo(outputs, key.authorizingInput, Path(key.name), n)
  }

  ghost predicate HasKey(covenant: OutputCovenant, groups: map<GroupKey, seq<nat>>)
    requires covenant.Genesis?
  {
    && Parse(covenant.subgroup).Ok?
    && GroupKey(covenant.authorizingInput, Parse(covenant.subgroup).value) in groups
  }

  function AddTo(groups: map<GroupKey, seq<nat>>, key: GroupKey, j: nat): map<GroupKey, seq<nat>> {
    groups[key := (if key in groups then groups[key] else []) + [j]]
  }

  /** A key absent from the groups has no members yet. */
  lemma AbsentKeyIsEmpty(outputs: seq<ContextOutput>, n: nat, groups: map<GroupKey, seq<nat>>, key: GroupKey)
    requires n <= |outputs| && AreGroups(outputs, n, groups)
    requires WellNamed(key.name) && key !in groups
    ensures MembersUpTo(outputs, key.authorizingInput, Path(key.name), n) == []
  {
    var r := MembersUpTo(outputs, key.authorizingInput, Path(key.name), n);
    assert r != [] ==> r[0] in r;
    ParseInvertsPath(Path(key.name), key.name);
    forall j | 0 <= j < n ensures j !in r {
      if outputs[j].covenant.Genesis? { assert HasKey(outputs[j].covenant, groups); }
    }
  }

  lemma AddMember(outputs: seq<ContextOutput>, n: nat, groups: map<GroupKey, seq<nat>>, key: GroupKey)
    requires n < |outputs| && AreGroups(outputs, n, groups)
    requires outputs[n].covenant.Genesis? && Parse(outputs[n].covenant.subgroup) == Ok(key.name)
    requires outputs[n].covenant.authorizingInput == key.authorizingInput
    ensures AreGroups(outputs, n + 1, AddTo(groups, key, n))
  {
    var after := AddTo(groups, key, n);
    ParseInvertsPath(outputs[n].covenant.subgroup, key.name);
    if key !in groups { AbsentKeyIsEmpty(outputs, n, groups, key); }
    assert IsGroup(outputs, n + 1, key, after[key]);
    forall k | k in after && k != key ensures IsGroup(outputs, n + 1, k, after[k]) {
      assert IsGroup(outputs, n, k, groups[k]);
      if Path(k.name) == Path(key.name) { PathIsInjective(k.name, key.name); }
    }
    forall j | 0 <= j < n + 1 && outputs[j].covenant.Genesis? ensures HasKey(outputs[j].covenant, after) {
      if j < n { assert HasKey(outputs[j].covenant, groups); }
    }
  }

  lemma SkipOutput(outputs: seq<ContextOutput>, n: nat, groups: map<GroupKey, seq<nat>>)
    requires n < |outputs| && AreGroups(outputs, n, groups) && !outputs[n].covenant.Genesis?
    ensures AreGroups(outputs, n + 1, groups)
  {
  }

  // ---------- Output phase 1 ----------

  method BindOwner(builder: Builder, owner: OutputOwner) returns (r: Result<BoundOwner, BuilderError>)
    ensures r.Ok? ==> IsBound(builder, owner, r.value)
    ensures r.Err? ==> owner.Actor? && builder.bind(owner.path).None? && r.error == UnknownActor(owner.path)
  {
    match owner
    case Actor(path, state) =>
      match builder.bind(path) {
        case Some(contract) => r := Ok(BoundActor(contract, state));
        case None => r := Err(UnknownActor(path));
      }
    case Spk(script) =>
      r := Ok(BoundSpk(script));
  }

  ghost predicate IsBound(builder: Builder, owner: OutputOwner, bound: BoundOwner) {
    match owner
    case Actor(path, state) =>
      builder.bind(path).Some? && bound == BoundActor(builder.bind(path).value, state)
    case Spk(script) => bound == BoundSpk(script)
  }

  /** Checks one genesis declaration and reads its key. */
  method CheckGenesis(builder: Builder, inputs: seq<Input>, output: ContextOutput, j: nat)
    returns (r: Result<GroupKey, BuilderError>)
    requires output.covenant.Genesis?
    ensures r.Ok? <==> GenesisFits(inputs, output.owner, output.covenant.authorizingInput, output.covenant.subgroup)
    ensures r.Ok? ==> r.value.authorizingInput == output.covenant.authorizingInput
    ensures r.Ok? ==> Parse(output.covenant.subgroup) == Ok(r.value.name)
    ensures r.Err? ==> IsFault(builder, inputs, output, j, r.error)
  {
    var a, g := output.covenant.authorizingInput, output.covenant.subgroup;
    if output.owner.Actor? && output.owner.state.Deferred? {
      return Err(GenesisOutputStateCallback(j));
    }
    var parsed := Parse(g);
    if parsed.Err? {
      return Err(InvalidGenesisPath(g));
    }
    var name := parsed.value;
    ParseInvertsPath(g, name);
    if a >= |inputs| {
      return Err(GenesisAuthorizingInputOutOfRange(a, |inputs|));
    }
    if name.Spawn? {
      if inputs[a].OrdinaryInput? {
        return Err(SpawnAuthorizingInputNotActor(a, name.name));
      }
      if !Declares(inputs[a], name.name) {
        return Err(UnknownSpawn(a, name.name));
      }
    }
    r := Ok(GroupKey(a, name));
  }

  /** Checks the declaration of output `j` and files it under its group. */
  method GroupOutput(builder: Builder, inputs: seq<Input>, outputs: seq<ContextOutput>, j: nat,
                     groups: map<GroupKey, seq<nat>>)
    returns (r: Result<map<GroupKey, seq<nat>>, BuilderError>)
    requires j < |outputs| && AreGroups(outputs, j, groups)
    ensures r.Ok? <==> DeclarationFits(inputs, outputs[j])
    ensures r.Ok? ==> AreGroups(outputs, j + 1, r.value)
    ensures r.Err? ==> IsFault(builder, inputs, outputs[j], j, r.error)
  {
    var output := outputs[j];
    if output.covenant.Genesis? {
      var key := CheckGenesis(builder, inputs, output, j);
      if key.Err? {
        return Err(key.error);
      }
      AddMember(outputs, j, groups, key.value);
      r := Ok(AddTo(groups, key.value, j));
    } else if output.owner.Actor? && output.covenant.Unbound? {
      r := Err(UnboundActorOutput(j));
    } else {
      SkipOutput(outputs, j, groups);
      r := Ok(groups);
    }
  }

  /** Binds the outputs and collects the groups; it stops at the first output that does not fit. */
  method CollectGroups(builder: Builder, inputs: seq<Input>, outputs: seq<ContextOutput>)
    returns (r: Result<(seq<BoundOwner>, map<GroupKey, seq<nat>>), BuilderError>)
    ensures r.Ok? <==> AllFit(builder, inputs, outputs, |outputs|)
    ensures r.Ok? ==> AreGroups(outputs, |outputs|, r.value.1) && AreBound(builder, outputs, r.value.0, |outputs|)
    ensures r.Err? ==>
              exists j: nat :: IsFirstFault(builder, inputs, outputs, j, r.error)
  {
    var bound: seq<BoundOwner> := [];
    var groups: map<GroupKey, seq<nat>> := map[];
    var j := 0;
    while j < |outputs|
      invariant 0 <= j <= |outputs|
      invariant AllFit(builder, inputs, outputs, j)
      invariant AreGroups(outputs, j, groups)
      invariant AreBound(builder, outputs, bound, j)
    {
      var grouped := GroupOutput(builder, inputs, outputs, j, groups);
      if grouped.Err? {
        assert IsFirstFault(builder, inputs, outputs, j, grouped.error);
        return Err(grouped.error);
      }
      var owner := BindOwner(builder, outputs[j].owner);
      if owner.Err? {
        assert IsFirstFault(builder, inputs, outputs, j, owner.error);
        return Err(owner.error);
      }
      groups, bound, j := grouped.value, bound + [owner.value], j + 1;
    }
    r := Ok((bound, groups));
  }

  ghost predicate AreBound(builder: Builder, outputs: seq<ContextOutput>, bound: seq<BoundOwner>, n: nat)
    requires n <= |outputs|
  {
    && |bound| == n
    && forall k :: 0 <= k < n ==> IsBound(builder, outputs[k].owner, bound[k])
  }

  ghost predicate IsFirstFault(builder: Builder, inputs: seq<Input>, outputs: seq<ContextOutput>, j: nat,
                               e: BuilderError) {
    && j < |outputs|
    && AllFit(builder, inputs, outputs, j)
    && !Fits(builder, inputs, outputs[j])
    && IsFault(builder, inputs, outputs[j], j, e)
  }

  // ---------- Output phase 2 ----------

  /** The script of an output whose state is known from the start. */
  ghost function KnownScript(builder: Builder, owner: OutputOwner): Option<Script> {
    match owner
    case Spk(script) => Some(script)
    case Actor(path, state) =>
      if builder.bind(path).Some? && state.Static? then builder.scriptOf(builder.bind(path).value, state.state) else None
  }

  /** The index fits the hash preimage and the script can be built. */
  ghost predicate Listable(builder: Builder, outputs: seq<ContextOutput>, k: nat) {
    k < |outputs| && k < 0x1_0000_0000 && KnownScript(builder, outputs[k].owner).Some?
  }

  /** Which accepted genesis outputs can be listed, spelled out: those with a 32-bit index that pay to a given script, or
      to an actor whose script can be built. */
  lemma ListableExactly(builder: Builder, inputs: seq<Input>, outputs: seq<ContextOutput>, k: nat)
    requires k < |outputs| && outputs[k].covenant.Genesis? && Fits(builder, inputs, outputs[k])
    ensures Listable(builder, outputs, k) <==>
              && k <= 0xffff_ffff
              && match outputs[k].owner
                 case Spk(_) => true
                 case Actor(path, state) => builder.scriptOf(builder.bind(path).value, state.state).Some?
  {
  }

  ghost predicate AllListable(builder: Builder, outputs: seq<ContextOutput>, indices: seq<nat>) {
    forall i :: 0 <= i < |indices| ==> Listable(builder, outputs, indices[i])
  }

  ghost function Listing(builder: Builder, outputs: seq<ContextOutput>, indices: seq<nat>): (r: seq<(nat, PlainOutput)>)
    requires AllListable(builder, outputs, indices)
    ensures |r| == |indices|
    ensures forall i :: 0 <= i < |r| ==>
              r[i] == (indices[i], PlainOutput(outputs[indices[i]].value, KnownScript(builder, outputs[indices[i]].owner).value))
  {
    if indices == [] then []
    else
      var last := |indices| - 1;
      var k := indices[last];
      assert Listable(builder, outputs, k);
      Listing(builder, outputs, indices[..last]) + [(k, PlainOutput(outputs[k].value, KnownScript(builder, outputs[k].owner).value))]
  }

  /** A group whose covenant ID can be derived. */
  ghost predicate Derivable(builder: Builder, inputs: seq<Input>, outputs: seq<ContextOutput>, a: u16, g: string) {
    a < |inputs| && AllListable(builder, outputs, Members(outputs, a, g))
  }

  /** The covenant ID of a group: the authorizing outpoint and exactly the group's outputs. */
  ghost function GroupId(builder: Builder, inputs: seq<Input>, outputs: seq<ContextOutput>, a: u16, g: string): Hash
    requires Derivable(builder, inputs, outputs, a, g)
  {
    builder.covenantId(inputs[a].outpoint, Listing(builder, outputs, Members(outputs, a, g)))
  }

  /** What a second-phase error says of output `k` is so. */
  ghost predicate IsListingFault(builder: Builder, outputs: seq<ContextOutput>, k: nat, e: BuilderError) {
    && k < |outputs|
    && outputs[k].covenant.Genesis?
    && match e
       case ScriptFailure(contract, state) =>
         && outputs[k].owner.Actor? && outputs[k].owner.state == Static(state)
         && builder.bind(outputs[k].owner.path) == Some(contract) && builder.scriptOf(contract, state).None?
       case GenesisOutputIndexOverflow(index) =>
         index == k && k >= 0x1_0000_0000 && KnownScript(builder, outputs[k].owner).Some?
       case _ => false
  }

  /** The error concerns member `i` of a group, whose earlier members can be listed. */
  ghost predicate IsFirstInGroup(builder: Builder, outputs: seq<ContextOutput>, indices: seq<nat>, i: nat,
                                 e: BuilderError) {
    && i < |indices|
    && AllListable(builder, outputs, indices[..i])
    && IsListingFault(builder, outputs, indices[i], e)
  }

  /** The error concerns the first group, in key order, that cannot be listed, and its first such member. */
  ghost predicate IsFirstInOrder(builder: Builder, outputs: seq<ContextOutput>, groups: map<GroupKey, seq<nat>>,
                                 key: GroupKey, i: nat, e: BuilderError) {
    && key in groups
    && IsFirstInGroup(builder, outputs, groups[key], i, e)
    && forall k :: k in groups && LexLess(Rank(k), Rank(key)) ==> AllListable(builder, outputs, groups[k])
  }

  /** Lists one member as the hash library wants it. */
  method ListOutput(builder: Builder, inputs: seq<Input>, outputs: seq<ContextOutput>, bound: BoundOwner, k: nat)
    returns (r: Result<PlainOutput, BuilderError>)
    requires k < |outputs| && Fits(builder, inputs, outputs[k]) && IsBound(builder, outputs[k].owner, bound)
    requires outputs[k].covenant.Genesis?
    ensures r.Ok? <==> Listable(builder, outputs, k)
    ensures r.Ok? ==> r.value == PlainOutput(outputs[k].value, KnownScript(builder, outputs[k].owner).value)
    ensures r.Err? ==> IsListingFault(builder, outputs, k, r.error)
  {
    var script;
    match bound {
      case BoundActor(contract, state) =>
        match state {
          case Static(known) =>
            match builder.scriptOf(contract, known) {
              case Some(built) => script := built;
              case None => return Err(ScriptFailure(contract, known));
            }
          case Deferred(_) =>
            assert false;
        }
      case BoundSpk(given) =>
        script := given;
    }
    if k >= 0x1_0000_0000 {
      return Err(GenesisOutputIndexOverflow(k));
    }
    r := Ok(PlainOutput(outputs[k].value, script));
  }

  lemma ListingGrows(builder: Builder, outputs: seq<ContextOutput>, indices: seq<nat>, i: nat)
    requires i < |indices| && AllListable(builder, outputs, indices[..i]) && Listable(builder, outputs, indices[i])
    ensures AllListable(builder, outputs, indices[..i + 1])
    ensures Listing(builder, outputs, indices[..i + 1])
         == Listing(builder, outputs, indices[..i])
            + [(indices[i], PlainOutput(outputs[indices[i]].value, KnownScript(builder, outputs[indices[i]].owner).value))]
  {
    assert indices[..i + 1] == indices[..i] + [indices[i]];
  }

  method ListGroup(builder: Builder, inputs: seq<Input>, outputs: seq<ContextOutput>, bound: seq<BoundOwner>,
                   indices: seq<nat>)
    returns (r: Result<seq<(nat, PlainOutput)>, BuilderError>)
    requires AllFit(builder, inputs, outputs, |outputs|) && AreBound(builder, outputs, bound, |outputs|)
    requires forall i :: 0 <= i < |indices| ==> indices[i] < |outputs| && outputs[indices[i]].covenant.Genesis?
    ensures r.Ok? <==> AllListable(builder, outputs, indices)
    ensures r.Ok? ==> r.value == Listing(builder, outputs, indices)
    ensures r.Err? ==> exists i: nat :: IsFirstInGroup(builder, outputs, indices, i, r.error)
  {
    var listed: seq<(nat, PlainOutput)> := [];
    var i := 0;
    while i < |indices|
      invariant 0 <= i <= |indices|
      invariant AllListable(builder, outputs, indices[..i])
      invariant listed == Listing(builder, outputs, indices[..i])
    {
      var k := indices[i];
      var plain := ListOutput(builder, inputs, outputs, bound[k], k);
      if plain.Err? {
        assert IsFirstInGroup(builder, outputs, indices, i, plain.error);
        return Err(plain.error);
      }
      ListingGrows(builder, outputs, indices, i);
      listed := listed + [(k, plain.value)];
      i := i + 1;
    }
    assert indices[..i] == indices;
    r := Ok(listed);
  }

  ghost predicate HoldsId(builder: Builder, inputs: seq<Input>, outputs: seq<ContextOutput>, ids: StateContext,
                          a: u16, g: string) {
    && Derivable(builder, inputs, outputs, a, g)
    && (a, g) in ids
    && ids[(a, g)] == GroupId(builder, inputs, outputs, a, g)
  }

  ghost predicate NamesOneOf(done: set<GroupKey>, a: u16, g: string) {
    Parse(g).Ok? && GroupKey(a, Parse(g).value) in done
  }

  /** The context holds the covenant ID of each group in `done`, and nothing else. */
  ghost predicate HoldsIds(builder: Builder, inputs: seq<Input>, outputs: seq<ContextOutput>, done: set<GroupKey>,
                           ids: StateContext) {
    && (forall key {:trigger HoldsId(builder, inputs, outputs, ids, key.authorizingInput, Path(key.name))} ::
          key in done ==> HoldsId(builder, inputs, outputs, ids, key.authorizingInput, Path(key.name)))
    && (forall a, g :: (a, g) in ids ==> HoldsId(builder, inputs, outputs, ids, a, g) && NamesOneOf(done, a, g))
  }

  lemma AddId(builder: Builder, inputs: seq<Input>, outputs: seq<ContextOutput>, done: set<GroupKey>,
              ids: StateContext, key: GroupKey)
    requires HoldsIds(builder, inputs, outputs, done, ids) && WellNamed(key.name)
    requires Derivable(builder, inputs, outputs, key.authorizingInput, Path(key.name))
    ensures HoldsIds(builder, inputs, outputs, done + {key},
                     ids[(key.authorizingInput, Path(key.name)) :=
                       GroupId(builder, inputs, outputs, key.authorizingInput, Path(key.name))])
  {
    var a, g := key.authorizingInput, Path(key.name);
    var more := ids[(a, g) := GroupId(builder, inputs, outputs, a, g)];
    ParseInvertsPath(g, key.name);
    assert NamesOneOf(done + {key}, a, g);
    forall b, h | (b, h) in more ensures HoldsId(builder, inputs, outputs, more, b, h) && NamesOneOf(done + {key}, b, h) {
      if (b, h) != (a, g) {
        assert HoldsId(builder, inputs, outputs, ids, b, h) && NamesOneOf(done, b, h);
      }
    }
    forall other | other in done ensures HoldsId(builder, inputs, outputs, more, other.authorizingInput, Path(other.name)) {
      assert HoldsId(builder, inputs, outputs, ids, other.authorizingInput, Path(other.name));
    }
  }

  /** Derives the covenant ID of one group. */
  method DeriveId(builder: Builder, inputs: seq<Input>, outputs: seq<ContextOutput>,
                  bound: seq<BoundOwner>, groups: map<GroupKey, seq<nat>>, key: GroupKey)
    returns (r: Result<Hash, BuilderError>)
    requires AllFit(builder, inputs, outputs, |outputs|) && AreBound(builder, outputs, bound, |outputs|)
    requires AreGroups(outputs, |outputs|, groups) && key in groups
    ensures r.Ok? ==>
              && Derivable(builder, inputs, outputs, key.authorizingInput, Path(key.name))
              && r.value == GroupId(builder, inputs, outputs, key.authorizingInput, Path(key.name))
    ensures r.Err? ==> !GenesisListable(builder, outputs)
    ensures r.Err? ==> exists i: nat :: IsFirstInGroup(builder, outputs, groups[key], i, r.error)
  {
    GroupIsInRange(builder, inputs, outputs, groups, key);
    if key.authorizingInput >= |inputs| {
      assert false;
    }
    var listed := ListGroup(builder, inputs, outputs, bound, groups[key]);
    if listed.Err? {
      UnlistableGroup(builder, outputs, groups, key);
      return Err(listed.error);
    }
    r := Ok(builder.covenantId(inputs[key.authorizingInput].outpoint, listed.value));
  }

  lemma MoveKey(all: set<GroupKey>, done: set<GroupKey>, rest: set<GroupKey>, key: GroupKey)
    requires done + rest == all && key in rest
    ensures (done + {key}) + (rest - {key}) == all
    ensures rest - {key} < rest
  {
  }

  lemma NoKeysLeft(all: set<GroupKey>, done: set<GroupKey>, rest: set<GroupKey>)
    requires done + rest == all && rest == {}
    ensures done == all
  {
  }

  /** When the least remaining group fails, every group before it in key order was listed. */
  lemma FirstFaultInOrder(builder: Builder, inputs: seq<Input>, outputs: seq<ContextOutput>,
                          groups: map<GroupKey, seq<nat>>, ids: StateContext, done: set<GroupKey>, rest: set<GroupKey>,
                          key: GroupKey, e: BuilderError)
    requires AreGroups(outputs, |outputs|, groups) && done + rest == groups.Keys && key in rest
    requires HoldsIds(builder, inputs, outputs, done, ids)
    requires forall k :: k in rest && k != key ==> LexLess(Rank(key), Rank(k))
    requires exists i: nat :: IsFirstInGroup(builder, outputs, groups[key], i, e)
    ensures exists i: nat :: IsFirstInOrder(builder, outputs, groups, key, i, e)
  {
    forall k | k in groups && LexLess(Rank(k), Rank(key)) ensures AllListable(builder, outputs, groups[k]) {
      LexIrreflexive(Rank(key));
      if k in rest { LexTransitive(Rank(key), Rank(k), Rank(key)); }
      assert HoldsId(builder, inputs, outputs, ids, k.authorizingInput, Path(k.name));
      assert IsGroup(outputs, |outputs|, k, groups[k]);
    }
    var i: nat :| IsFirstInGroup(builder, outputs, groups[key], i, e);
    assert IsFirstInOrder(builder, outputs, groups, key, i, e);
  }

  /** Derives the covenant ID of every group, in key order. */
  method DeriveIds(builder: Builder, inputs: seq<Input>, outputs: seq<ContextOutput>,
                   bound: seq<BoundOwner>, groups: map<GroupKey, seq<nat>>)
    returns (r: Result<StateContext, BuilderError>)
    requires AllFit(builder, inputs, outputs, |outputs|) && AreBound(builder, outputs, bound, |outputs|)
    requires AreGroups(outputs, |outputs|, groups)
    ensures r.Ok? <==> GenesisListable(builder, outputs)
    ensures r.Ok? ==> HoldsIds(builder, inputs, outputs, groups.Keys, r.value)
    ensures r.Err? ==> exists key, i: nat :: IsFirstInOrder(builder, outputs, groups, key, i, r.error)
  {
    var ids: StateContext := map[];
    var rest := groups.Keys;
    ghost var all, done := rest, {};
    while rest != {}
      invariant done + rest == all
      invariant HoldsIds(builder, inputs, outputs, done, ids)
      decreases rest
    {
      var key := NextKey(rest);
      assert IsGroup(outputs, |outputs|, key, groups[key]);
      var derived := DeriveId(builder, inputs, outputs, bound, groups, key);
      if derived.Err? {
        FirstFaultInOrder(builder, inputs, outputs, groups, ids, done, rest, key, derived.error);
        return Err(derived.error);
      }
      AddId(builder, inputs, outputs, done, ids, key);
      ids := ids[(key.authorizingInput, Path(key.name)) := derived.value];
      MoveKey(all, done, rest, key);
      rest, done := rest - {key}, done + {key};
    }
    NoKeysLeft(all, done, rest);
    AllGroupsListable(builder, inputs, outputs, groups, ids);
    r := Ok(ids);
  }

  /** Every genesis output can be listed. */
  ghost predicate GenesisListable(builder: Builder, outputs: seq<ContextOutput>) {
    forall k :: 0 <= k < |outputs| && outputs[k].covenant.Genesis? ==> Listable(builder, outputs, k)
  }

  lemma GroupIsInRange(builder: Builder, inputs: seq<Input>, outputs: seq<ContextOutput>,
                       groups: map<GroupKey, seq<nat>>, key: GroupKey)
    requires AllFit(builder, inputs, outputs, |outputs|) && AreGroups(outputs, |outputs|, groups) && key in groups
    ensures key.authorizingInput < |inputs| && WellNamed(key.name)
    ensures groups[key] == Members(outputs, key.authorizingInput, Path(key.name))
    ensures forall i :: 0 <= i < |groups[key]| ==>
              groups[key][i] < |outputs| && outputs[groups[key][i]].covenant == Genesis(key.authorizingInput, Path(key.name))
  {
    var first := groups[key][0];
    assert first in groups[key];
    assert Fits(builder, inputs, outputs[first]);
    forall i | 0 <= i < |groups[key]|
      ensures groups[key][i] < |outputs| && outputs[groups[key][i]].covenant == Genesis(key.authorizingInput, Path(key.name))
    {
      assert groups[key][i] in groups[key];
    }
  }

  lemma UnlistableGroup(builder: Builder, outputs: seq<ContextOutput>, groups: map<GroupKey, seq<nat>>, key: GroupKey)
    requires AreGroups(outputs, |outputs|, groups) && key in groups && !AllListable(builder, outputs, groups[key])
    ensures !GenesisListable(builder, outputs)
  {
    var i :| 0 <= i < |groups[key]| && !Listable(builder, outputs, groups[key][i]);
    assert groups[key][i] in groups[key];
  }

  lemma AllGroupsListable(builder: Builder, inputs: seq<Input>, outputs: seq<ContextOutput>,
                          groups: map<GroupKey, seq<nat>>, ids: StateContext)
    requires AreGroups(outputs, |outputs|, groups) && HoldsIds(builder, inputs, outputs, groups.Keys, ids)
    ensures GenesisListable(builder, outputs)
  {
    forall k | 0 <= k < |outputs| && outputs[k].covenant.Genesis? ensures Listable(builder, outputs, k) {
      var covenant := outputs[k].covenant;
      assert HasKey(covenant, groups);
      var name := Parse(covenant.subgroup).value;
      ParseInvertsPath(covenant.subgroup, name);
      var key := GroupKey(covenant.authorizingInput, name);
      assert HoldsId(builder, inputs, outputs, ids, key.authorizingInput, Path(key.name));
      assert k in Members(outputs, covenant.authorizingInput, covenant.subgroup);
    }
  }

  // ---------- Output phase 3 ----------

  ghost predicate OwnerResolves(builder: Builder, ids: StateContext, owner: OutputOwner, resolved: ResolvedOwner) {
    match owner
    case Spk(script) => resolved == ResolvedSpk(script)
    case Actor(path, state) =>
      && resolved.ResolvedActor?
      && builder.bind(path) == Some(resolved.contract)
      && match state
         case Static(known) => resolved.state == known
         case Deferred(build) => build(ids) == Ok(resolved.state)
  }

  ghost predicate BindingResolves(builder: Builder, inputs: seq<Input>, outputs: seq<ContextOutput>,
                                  covenant: OutputCovenant, b: ResolvedBinding) {
    match covenant
    case Unbound => b == NoBinding
    case Existing(binding) => b == ExistingBinding(binding)
    case Genesis(a, g) =>
      && Derivable(builder, inputs, outputs, a, g)
      && b.GenesisBinding?
      && b.binding == Binding(a, GroupId(builder, inputs, outputs, a, g))
      && Parse(g) == Ok(b.group)
  }

  /** Output `k` carries its declared value, its owner, and the binding its declaration asks for. */
  ghost predicate Resolves(builder: Builder, inputs: seq<Input>, outputs: seq<ContextOutput>, ids: StateContext,
                           k: nat, r: ResolvedOutput)
    requires k < |outputs|
  {
    && r.value == outputs[k].value
    && OwnerResolves(builder, ids, outputs[k].owner, r.owner)
    && BindingResolves(builder, inputs, outputs, outputs[k].covenant, r.binding)
  }

  ghost predicate Resolved(builder: Builder, inputs: seq<Input>, outputs: seq<ContextOutput>, ids: StateContext,
                           n: nat, r: seq<ResolvedOutput>)
    requires n <= |outputs|
  {
    && |r| == n
    && forall k :: 0 <= k < n ==> Resolves(builder, inputs, outputs, ids, k, r[k])
  }

  /** The ID of every group that has an output, and of no other group: what deferred states are evaluated against. */
  ghost predicate IsGenesisContext(builder: Builder, inputs: seq<Input>, outputs: seq<ContextOutput>,
                                   ids: StateContext) {
    forall a: u16, g: string ::
      && ((a, g) in ids <==> Members(outputs, a, g) != [])
      && ((a, g) in ids ==>
            Derivable(builder, inputs, outputs, a, g) && ids[(a, g)] == GroupId(builder, inputs, outputs, a, g))
  }

  lemma ContextIsComplete(builder: Builder, inputs: seq<Input>, outputs: seq<ContextOutput>,
                          groups: map<GroupKey, seq<nat>>, ids: StateContext)
    requires AreGroups(outputs, |outputs|, groups) && HoldsIds(builder, inputs, outputs, groups.Keys, ids)
    ensures IsGenesisContext(builder, inputs, outputs, ids)
  {
    forall a: u16, g: string ensures (a, g) in ids <==> Members(outputs, a, g) != [] {
      if (a, g) in ids { StoredIdHasMembers(builder, inputs, outputs, groups, ids, a, g); }
      if Members(outputs, a, g) != [] { MembersHaveStoredId(builder, inputs, outputs, groups, ids, a, g); }
    }
  }

  lemma StoredIdHasMembers(builder: Builder, inputs: seq<Input>, outputs: seq<ContextOutput>,
                           groups: map<GroupKey, seq<nat>>, ids: StateContext, a: u16, g: string)
    requires AreGroups(outputs, |outputs|, groups) && HoldsIds(builder, inputs, outputs, groups.Keys, ids)
    requires (a, g) in ids
    ensures Members(outputs, a, g) != []
  {
    assert NamesOneOf(groups.Keys, a, g);
    var key := GroupKey(a, Parse(g).value);
    ParseInvertsPath(g, key.name);
    assert IsGroup(outputs, |outputs|, key, groups[key]);
  }

  lemma MembersHaveStoredId(builder: Builder, inputs: seq<Input>, outputs: seq<ContextOutput>,
                            groups: map<GroupKey, seq<nat>>, ids: StateContext, a: u16, g: string)
    requires AreGroups(outputs, |outputs|, groups) && HoldsIds(builder, inputs, outputs, groups.Keys, ids)
    requires Members(outputs, a, g) != []
    ensures (a, g) in ids
  {
    var first := Members(outputs, a, g)[0];
    assert first in Members(outputs, a, g);
    assert HasKey(outputs[first].covenant, groups);
    var key := GroupKey(a, Parse(g).value);
    ParseInvertsPath(g, key.name);
    assert HoldsId(builder, inputs, outputs, ids, key.authorizingInput, Path(key.name));
  }

  method ResolveOwner(builder: Builder, owner: OutputOwner, bound: BoundOwner, ids: StateContext, k: nat)
    returns (r: Result<ResolvedOwner, BuilderError>)
    requires IsBound(builder, owner, bound)
    ensures r.Ok? ==> OwnerResolves(builder, ids, owner, r.value)
    ensures r.Err? ==> IsCallbackFault(owner, ids, k, r.error)
  {
    match bound
    case BoundActor(contract, state) =>
      match state {
        case Static(known) => r := Ok(ResolvedActor(contract, known));
        case Deferred(build) =>
          match build(ids) {
            case Ok(built) => r := Ok(ResolvedActor(contract, built));
            case Err(source) => r := Err(OutputStateCallback(k, source));
          }
      }
    case BoundSpk(script) =>
      r := Ok(ResolvedSpk(script));
  }

  ghost predicate IsCallbackFault(owner: OutputOwner, ids: StateContext, k: nat, e: BuilderError) {
    && owner.Actor? && owner.state.Deferred?
    && e.OutputStateCallback? && e.outputIndex == k && owner.state.build(ids) == Err(e.source)
  }

  ghost predicate IsLateFault(outputs: seq<ContextOutput>, ids: StateContext, k: nat, e: BuilderError) {
    k < |outputs| && IsCallbackFault(outputs[k].owner, ids, k, e)
  }

  ghost predicate IsFirstLateFault(outputs: seq<ContextOutput>, ids: StateContext, k: nat, e: BuilderError) {
    IsLateFault(outputs, ids, k, e) && forall j: nat, d :: j < k ==> !IsLateFault(outputs, ids, j, d)
  }

  lemma NoLateFault(builder: Builder, inputs: seq<Input>, outputs: seq<ContextOutput>, ids: StateContext, n: nat,
                    r: seq<ResolvedOutput>)
    requires n <= |outputs| && Resolved(builder, inputs, outputs, ids, n, r)
    ensures forall k: nat, e :: k < n ==> !IsLateFault(outputs, ids, k, e)
  {
    forall k: nat, e | k < n ensures !IsLateFault(outputs, ids, k, e) {
      assert Resolves(builder, inputs, outputs, ids, k, r[k]);
    }
  }

  /** The lookup of a genesis output's ID never fails: the key it is stored under is written the way it was read. */
  lemma IdIsPresent(builder: Builder, inputs: seq<Input>, outputs: seq<ContextOutput>, ids: StateContext, k: nat)
    requires IsGenesisContext(builder, inputs, outputs, ids) && k < |outputs| && outputs[k].covenant.Genesis?
    ensures (outputs[k].covenant.authorizingInput, outputs[k].covenant.subgroup) in ids
  {
    assert k in Members(outputs, outputs[k].covenant.authorizingInput, outputs[k].covenant.subgroup);
  }

  /** Attaches the bindings and evaluates the states against the complete context. */
  method AttachBindings(builder: Builder, inputs: seq<Input>, outputs: seq<ContextOutput>, bound: seq<BoundOwner>,
                        ids: StateContext)
    returns (r: Result<seq<ResolvedOutput>, BuilderError>)
    requires AllFit(builder, inputs, outputs, |outputs|) && AreBound(builder, outputs, bound, |outputs|)
    requires IsGenesisContext(builder, inputs, outputs, ids)
    ensures r.Ok? ==> Resolved(builder, inputs, outputs, ids, |outputs|, r.value)
    ensures r.Err? ==> exists k: nat :: IsFirstLateFault(outputs, ids, k, r.error)
  {
    var resolved: seq<ResolvedOutput> := [];
    var k := 0;
    while k < |outputs|
      invariant 0 <= k <= |outputs|
      invariant Resolved(builder, inputs, outputs, ids, k, resolved)
    {
      var output := outputs[k];
      assert Fits(builder, inputs, output);
      var binding;
      match output.covenant {
        case Unbound => binding := NoBinding;
        case Existing(given) => binding := ExistingBinding(given);
        case Genesis(a, g) =>
          IdIsPresent(builder, inputs, outputs, ids, k);
          binding := GenesisBinding(Binding(a, ids[(a, g)]), Parse(g).value);
      }
      assert BindingResolves(builder, inputs, outputs, output.covenant, binding);
      var owner := ResolveOwner(builder, output.owner, bound[k], ids, k);
      if owner.Err? {
        NoLateFault(builder, inputs, outputs, ids, k, resolved);
        assert IsFirstLateFault(outputs, ids, k, owner.error);
        return Err(owner.error);
      }
      resolved := resolved + [ResolvedOutput(owner.value, binding, output.value)];
      k := k + 1;
    }
    r := Ok(resolved);
  }

  /** The error concerns the first group, in key order, of which some output cannot be listed. */
  ghost predicate IsGroupFault(builder: Builder, outputs: seq<ContextOutput>, e: BuilderError) {
    exists groups, key, i: nat ::
      AreGroups(outputs, |outputs|, groups) && IsFirstInOrder(builder, outputs, groups, key, i, e)
  }

  /** There is only one genesis context. */
  lemma GenesisContextIsUnique(builder: Builder, inputs: seq<Input>, outputs: seq<ContextOutput>, a: StateContext,
                               b: StateContext)
    requires IsGenesisContext(builder, inputs, outputs, a) && IsGenesisContext(builder, inputs, outputs, b)
    ensures a == b
  {
    forall key: (u16, string) ensures key in a <==> key in b {
      assert key == (key.0, key.1);
    }
    forall key: (u16, string) | key in a ensures a[key] == b[key] {
      assert key == (key.0, key.1);
    }
  }

  /** No deferred state fails when it is given the IDs of all groups. */
  ghost predicate StatesResolve(builder: Builder, inputs: seq<Input>, outputs: seq<ContextOutput>) {
    forall ids, k: nat, e :: IsGenesisContext(builder, inputs, outputs, ids) ==> !IsLateFault(outputs, ids, k, e)
  }

  /** The outputs as resolved against the IDs of all groups. */
  ghost predicate AreResolved(builder: Builder, inputs: seq<Input>, outputs: seq<ContextOutput>,
                              r: seq<ResolvedOutput>) {
    exists ids ::
      IsGenesisContext(builder, inputs, outputs, ids) && Resolved(builder, inputs, outputs, ids, |outputs|, r)
  }

  /** The error is that of the first deferred state that fails. */
  ghost predicate IsStateFault(builder: Builder, inputs: seq<Input>, outputs: seq<ContextOutput>, e: BuilderError) {
    exists ids, k: nat :: IsGenesisContext(builder, inputs, outputs, ids) && IsFirstLateFault(outputs, ids, k, e)
  }

  /** The error of the first phase that has one. */
  ghost predicate IsBindingFault(builder: Builder, inputs: seq<Input>, outputs: seq<ContextOutput>, e: BuilderError) {
    if !AllFit(builder, inputs, outputs, |outputs|) then
      exists k: nat :: IsFirstFault(builder, inputs, outputs, k, e)
    else if !GenesisListable(builder, outputs) then IsGroupFault(builder, outputs, e)
    else IsStateFault(builder, inputs, outputs, e)
  }

  /** Whether the states resolve shows against the one context there is. */
  lemma StatesResolveAgainst(builder: Builder, inputs: seq<Input>, outputs: seq<ContextOutput>, ids: StateContext)
    requires IsGenesisContext(builder, inputs, outputs, ids)
    ensures StatesResolve(builder, inputs, outputs) <==> forall k: nat, e :: !IsLateFault(outputs, ids, k, e)
  {
    forall other | IsGenesisContext(builder, inputs, outputs, other) ensures other == ids {
      GenesisContextIsUnique(builder, inputs, outputs, other, ids);
    }
  }

  /** The three phases: the outputs of the bound context. */
  method BindOutputs(builder: Builder, inputs: seq<Input>, outputs: seq<ContextOutput>)
    returns (r: Result<seq<ResolvedOutput>, BuilderError>)
    ensures r.Ok? <==>
              && AllFit(builder, inputs, outputs, |outputs|)
              && GenesisListable(builder, outputs)
              && StatesResolve(builder, inputs, outputs)
    ensures r.Ok? ==> AreResolved(builder, inputs, outputs, r.value)
    ensures r.Err? ==> IsBindingFault(builder, inputs, outputs, r.error)
  {
    var collected := CollectGroups(builder, inputs, outputs);
    if collected.Err? {
      return Err(collected.error);
    }
    var (bound, groups) := collected.value;
    var derived := DeriveIds(builder, inputs, outputs, bound, groups);
    if derived.Err? {
      assert IsGroupFault(builder, outputs, derived.error);
      return Err(derived.error);
    }
    var ids := derived.value;
    ContextIsComplete(builder, inputs, outputs, groups, ids);
    StatesResolveAgainst(builder, inputs, outputs, ids);
    r := AttachBindings(builder, inputs, outputs, bound, ids);
    if r.Ok? {
      NoLateFault(builder, inputs, outputs, ids, |outputs|, r.value);
      assert forall k: nat, e :: IsLateFault(outputs, ids, k, e) ==> k < |outputs|;
    } else {
      assert IsStateFault(builder, inputs, outputs, r.error);
      assert exists k: nat :: IsLateFault(outputs, ids, k, r.error);
    }
  }

  // ---------- The unsigned transaction ----------

  ghost predicate IsUnsigned(builder: Builder, resolved: ResolvedOutput, tx: TxOutput) {
    && tx.plain.value == resolved.value
    && (match resolved.owner
        case ResolvedActor(contract, state) => builder.scriptOf(contract, state) == Some(tx.plain.script)
        case ResolvedSpk(script) => tx.plain.script == script)
    && (match resolved.binding
        case NoBinding => tx.covenant == None
        case ExistingBinding(binding) => tx.covenant == Some(binding)
        case GenesisBinding(binding, _) => tx.covenant == Some(binding))
  }

  ghost predicate AreUnsigned(builder: Builder, resolved: seq<ResolvedOutput>, tx: seq<TxOutput>, n: nat)
    requires n <= |resolved|
  {
    |tx| == n && forall k :: 0 <= k < n ==> IsUnsigned(builder, resolved[k], tx[k])
  }

  function Covenant(b: ResolvedBinding): Option<Binding> {
    match b
    case NoBinding => None
    case ExistingBinding(binding) => Some(binding)
    case GenesisBinding(binding, _) => Some(binding)
  }

  /** The outputs of the unsigned transaction; it fails only where a script cannot be built. */
  method UnsignedOutputs(builder: Builder, resolved: seq<ResolvedOutput>)
    returns (r: Result<seq<TxOutput>, BuilderError>)
    ensures r.Ok? ==> AreUnsigned(builder, resolved, r.value, |resolved|)
    ensures r.Err? ==>
              && r.error.ScriptFailure?
              && builder.scriptOf(r.error.contract, r.error.state).None?
              && exists k :: 0 <= k < |resolved| && resolved[k].owner == ResolvedActor(r.error.contract, r.error.state)
  {
    var tx: seq<TxOutput> := [];
    var k := 0;
    while k < |resolved|
      invariant 0 <= k <= |resolved|
      invariant AreUnsigned(builder, resolved, tx, k)
    {
      var script;
      match resolved[k].owner {
        case ResolvedActor(contract, state) =>
          match builder.scriptOf(contract, state) {
            case Some(built) => script := built;
            case None => return Err(ScriptFailure(contract, state));
          }
        case ResolvedSpk(given) =>
          script := given;
      }
      tx := tx + [TxOutput(PlainOutput(resolved[k].value, script), Covenant(resolved[k].binding))];
      k := k + 1;
    }
    r := Ok(tx);
  }

  /** From declaration to transaction: an output keeps its value; it carries no covenant, the given one, or one authorized
      by the declared input; and it pays to the given script, or to its actor's script in the declared state. */
  lemma OutputsArrive(builder: Builder, inputs: seq<Input>, outputs: seq<ContextOutput>, ids: StateContext,
                      resolved: seq<ResolvedOutput>, tx: seq<TxOutput>, k: nat)
    requires Resolved(builder, inputs, outputs, ids, |outputs|, resolved)
    requires AreUnsigned(builder, resolved, tx, |resolved|) && k < |outputs|
    ensures |tx| == |outputs| && tx[k].plain.value == outputs[k].value
    ensures match outputs[k].covenant
            case Unbound => tx[k].covenant == None
            case Existing(binding) => tx[k].covenant == Some(binding)
            case Genesis(a, _) => tx[k].covenant.Some? && tx[k].covenant.value.authorizingInput == a
    ensures match outputs[k].owner
            case Spk(script) => tx[k].plain.script == script
            case Actor(path, state) =>
              && builder.bind(path).Some?
              && match state
                 case Static(known) => builder.scriptOf(builder.bind(path).value, known) == Some(tx[k].plain.script)
                 case Deferred(build) =>
                   && build(ids).Ok?
                   && builder.scriptOf(builder.bind(path).value, build(ids).value) == Some(tx[k].plain.script)
  {
    assert Resolves(builder, inputs, outputs, ids, k, resolved[k]);
    assert IsUnsigned(builder, resolved[k], tx[k]);
  }

  // ---------- Agreement of IDs and outputs ----------

  /** The outputs of a group as they stand in the transaction. */
  ghost function FinalListing(tx: seq<TxOutput>, indices: seq<nat>): (r: seq<(nat, PlainOutput)>)
    requires forall i :: 0 <= i < |indices| ==> indices[i] < |tx|
    ensures |r| == |indices|
    ensures forall i :: 0 <= i < |r| ==> r[i] == (indices[i], tx[indices[i]].plain)
  {
    seq(|indices|, i requires 0 <= i < |indices| => (indices[i], tx[indices[i]].plain))
  }

  /** A genesis output's script in the transaction is the one its ID was derived from. */
  lemma ScriptIsAsListed(builder: Builder, inputs: seq<Input>, outputs: seq<ContextOutput>, ids: StateContext,
                         resolved: seq<ResolvedOutput>, tx: seq<TxOutput>, k: nat)
    requires AllFit(builder, inputs, outputs, |outputs|) && Resolved(builder, inputs, outputs, ids, |outputs|, resolved)
    requires AreUnsigned(builder, resolved, tx, |resolved|)
    requires k < |outputs| && outputs[k].covenant.Genesis? && Listable(builder, outputs, k)
    ensures tx[k].plain == PlainOutput(outputs[k].value, KnownScript(builder, outputs[k].owner).value)
  {
    assert Fits(builder, inputs, outputs[k]);
    assert Resolves(builder, inputs, outputs, ids, k, resolved[k]);
    assert IsUnsigned(builder, resolved[k], tx[k]);
  }

  /** The covenant ID of a genesis output is the ID function of the authorizing outpoint and exactly its
      group's outputs, at their indices, values and scripts in the transaction itself. */
  lemma IdsAgreeWithOutputs(builder: Builder, inputs: seq<Input>, outputs: seq<ContextOutput>, ids: StateContext,
                            resolved: seq<ResolvedOutput>, tx: seq<TxOutput>, k: nat)
    requires AllFit(builder, inputs, outputs, |outputs|) && GenesisListable(builder, outputs)
    requires Resolved(builder, inputs, outputs, ids, |outputs|, resolved)
    requires AreUnsigned(builder, resolved, tx, |resolved|)
    requires k < |outputs| && outputs[k].covenant.Genesis?
    ensures var a, members := outputs[k].covenant.authorizingInput, MembersOf(outputs, k);
      && a < |inputs| && k in members
      && (forall i :: 0 <= i < |members| ==> members[i] < |tx|)
      && tx[k].covenant == Some(Binding(a, builder.covenantId(inputs[a].outpoint, FinalListing(tx, members))))
  {
    var a, g := outputs[k].covenant.authorizingInput, outputs[k].covenant.subgroup;
    var members := Members(outputs, a, g);
    assert k in members;
    assert Fits(builder, inputs, outputs[k]);
    assert Resolves(builder, inputs, outputs, ids, k, resolved[k]);
    assert IsUnsigned(builder, resolved[k], tx[k]);
    forall i | 0 <= i < |members| ensures members[i] < |tx| && Listing(builder, outputs, members)[i] == (members[i], tx[members[i]].plain) {
      assert members[i] in members;
      ScriptIsAsListed(builder, inputs, outputs, ids, resolved, tx, members[i]);
    }
    assert Listing(builder, outputs, members) == FinalListing(tx, members);
  }

  ghost function MembersOf(outputs: seq<ContextOutput>, k: nat): seq<nat>
    requires k < |outputs| && outputs[k].covenant.Genesis?
  {
    Members(outputs, outputs[k].covenant.authorizingInput, outputs[k].covenant.subgroup)
  }

  /** What a covenant ID commits to: the authorizing outpoint and the outputs. */
  ghost function Preimage(inputs: seq<Input>, outputs: seq<ContextOutput>, tx: seq<TxOutput>, k: nat):
    (Outpoint, seq<(nat, PlainOutput)>)
    requires k < |outputs| == |tx| && outputs[k].covenant.Genesis? && outputs[k].covenant.authorizingInput < |inputs|
  {
    (inputs[outputs[k].covenant.authorizingInput].outpoint, FinalListing(tx, MembersOf(outputs, k)))
  }

  /** Genesis outputs commit to the same thing exactly when they declare the same group of the same input. */
  lemma GroupsCommitApart(inputs: seq<Input>, outputs: seq<ContextOutput>, tx: seq<TxOutput>, j: nat, k: nat)
    requires j < |outputs| == |tx| && k < |outputs| && outputs[j].covenant.Genesis? && outputs[k].covenant.Genesis?
    requires outputs[j].covenant.authorizingInput < |inputs| && outputs[k].covenant.authorizingInput < |inputs|
    ensures Preimage(inputs, outputs, tx, j) == Preimage(inputs, outputs, tx, k) <==>
              outputs[j].covenant == outputs[k].covenant
  {
    var mine, yours := MembersOf(outputs, j), MembersOf(outputs, k);
    var p, q := FinalListing(tx, mine), FinalListing(tx, yours);
    if p == q {
      assert j in mine;
      var i :| 0 <= i < |mine| && mine[i] == j;
      assert p[i].0 == q[i].0 == j;
      assert yours[i] in yours;
    }
  }

  ghost predicate HaveOneId(a: TxOutput, b: TxOutput) {
    a.covenant.Some? && b.covenant.Some? && a.covenant.value.covenantId == b.covenant.value.covenantId
  }

  /** Genesis outputs of one group share their covenant ID. If outputs of different groups do, the two groups commit to
      different outpoints and outputs to which the ID function gives one ID. */
  lemma SharedIdsMeanOneGroup(builder: Builder, inputs: seq<Input>, outputs: seq<ContextOutput>, ids: StateContext,
                              resolved: seq<ResolvedOutput>, tx: seq<TxOutput>, j: nat, k: nat)
    requires AllFit(builder, inputs, outputs, |outputs|) && GenesisListable(builder, outputs)
    requires Resolved(builder, inputs, outputs, ids, |outputs|, resolved)
    requires AreUnsigned(builder, resolved, tx, |resolved|)
    requires j < |outputs| && k < |outputs| && outputs[j].covenant.Genesis? && outputs[k].covenant.Genesis?
    ensures tx[j].covenant.Some? && tx[k].covenant.Some?
    ensures outputs[j].covenant.authorizingInput < |inputs| && outputs[k].covenant.authorizingInput < |inputs|
    ensures outputs[j].covenant == outputs[k].covenant ==> tx[j].covenant == tx[k].covenant
    ensures outputs[j].covenant != outputs[k].covenant && HaveOneId(tx[j], tx[k]) ==>
              var p, q := Preimage(inputs, outputs, tx, j), Preimage(inputs, outputs, tx, k);
              p != q && builder.covenantId(p.0, p.1) == builder.covenantId(q.0, q.1)
  {
    IdsAgreeWithOutputs(builder, inputs, outputs, ids, resolved, tx, j);
    IdsAgreeWithOutputs(builder, inputs, outputs, ids, resolved, tx, k);
    GroupsCommitApart(inputs, outputs, tx, j, k);
  }
}
