/** Spawn clauses: each claims the genesis group of its name, and the groups of one input lie in clause order. */
module GenesisSpawns {
  import opened Wrappers
  import opened GenesisNames
  import opened GenesisOutputs

  datatype SpawnError =
    | InputIndexOverflow(input: nat)
    | MissingSpawnGroup(input: nat, spawn: string)
    | GroupsOutOfOrder(spawn: string)
    | WrongOutputCount(spawn: string, expected: nat, found: nat)
    | NoActor(spawn: string, output: string, index: nat)
    | TargetMismatch(spawn: string, output: string, index: nat)
    | TargetLookup(source: string)

  /** Whether the contract at an output is the one a declared output of the given input asks for; the lookup itself may fail. */
  type Matcher = (nat, SpawnOutput, Contract) -> Result<bool, string>

  /** The output each spawned actor was found at, by clause name and declared output name. */
  type Spawned = map<(string, string), nat>

  predicate IsNamed(r: ResolvedOutput, key: GroupKey) {
    && r.binding.GenesisBinding?
    && r.binding.binding.authorizingInput == key.authorizingInput
    && r.binding.group == key.name
  }

  /** A resolved output carries a group's name exactly when its declaration asked for that group. */
  lemma NamedAsDeclared(builder: Builder, inputs: seq<Input>, outputs: seq<ContextOutput>, ids: StateContext,
                        k: nat, r: ResolvedOutput, key: GroupKey)
    requires k < |outputs| && Resolves(builder, inputs, outputs, ids, k, r)
    ensures IsNamed(r, key) <==> outputs[k].covenant == Genesis(key.authorizingInput, Path(key.name))
  {
    var covenant := outputs[k].covenant;
    if covenant.Genesis? {
      ParseInvertsPath(covenant.subgroup, r.binding.group);
      if covenant.subgroup == Path(key.name) { PathIsInjective(r.binding.group, key.name); }
    }
  }

  /** Scans the resolved outputs for a group: it finds the outputs the group was collected from, in the same order. */
  method NamedGroup(ghost builder: Builder, ghost inputs: seq<Input>, ghost outputs: seq<ContextOutput>,
                    ghost ids: StateContext,
                    resolved: seq<ResolvedOutput>, key: GroupKey)
    returns (r: Option<seq<nat>>)
    requires Resolved(builder, inputs, outputs, ids, |outputs|, resolved)
    ensures var members := Members(outputs, key.authorizingInput, Path(key.name));
      r == if members == [] then None else Some(members)
  {
    var found: seq<nat> := [];
    var k := 0;
    while k < |resolved|
      invariant 0 <= k <= |resolved|
      invariant found == MembersUpTo(outputs, key.authorizingInput, Path(key.name), k)
    {
      assert Resolves(builder, inputs, outputs, ids, k, resolved[k]);
      NamedAsDeclared(builder, inputs, outputs, ids, k, resolved[k], key);
      if IsNamed(resolved[k], key) {
        found := found + [k];
      }
      k := k + 1;
    }
    r := if found == [] then None else Some(found);
  }

  // ---------- One clause ----------

  ghost predicate OutputFits(matches: Matcher, input: nat, declared: SpawnOutput, r: ResolvedOutput) {
    r.owner.ResolvedActor? && matches(input, declared, r.owner.contract) == Ok(true)
  }

  /** What is said of an output that is not the one a clause declares is so. */
  ghost predicate IsOutputFault(matches: Matcher, input: nat, spawn: string, declared: SpawnOutput, index: nat,
                                r: ResolvedOutput, e: SpawnError) {
    match r.owner
    case ResolvedSpk(_) => e == NoActor(spawn, declared.name, index)
    case ResolvedActor(contract, _) =>
      match matches(input, declared, contract)
      case Err(source) => e == TargetLookup(source)
      case Ok(matched) => !matched && e == TargetMismatch(spawn, declared.name, index)
  }

  ghost predicate InRange(members: seq<nat>, resolved: seq<ResolvedOutput>) {
    forall d :: 0 <= d < |members| ==> members[d] < |resolved|
  }

  ghost predicate MembersFit(matches: Matcher, input: nat, clause: SpawnClause, members: seq<nat>, n: nat,
                             resolved: seq<ResolvedOutput>)
    requires n <= |members| == |clause.outputs| && InRange(members, resolved)
  {
    forall d :: 0 <= d < n ==> OutputFits(matches, input, clause.outputs[d], resolved[members[d]])
  }

  ghost predicate GroupFits(matches: Matcher, input: nat, clause: SpawnClause, members: seq<nat>,
                            resolved: seq<ResolvedOutput>)
    requires InRange(members, resolved)
  {
    |members| == |clause.outputs| && MembersFit(matches, input, clause, members, |members|, resolved)
  }

  /** What is said of a clause whose group does not fit is so: a wrong count, or the first output that does not fit. */
  ghost predicate IsGroupFault(matches: Matcher, input: nat, clause: SpawnClause, members: seq<nat>,
                               resolved: seq<ResolvedOutput>, e: SpawnError)
    requires InRange(members, resolved)
  {
    if |members| != |clause.outputs| then e == WrongOutputCount(clause.name, |clause.outputs|, |members|)
    else exists d: nat :: IsMemberFault(matches, input, clause, members, d, resolved, e)
  }

  ghost predicate IsMemberFault(matches: Matcher, input: nat, clause: SpawnClause, members: seq<nat>, d: nat,
                                resolved: seq<ResolvedOutput>, e: SpawnError)
    requires |members| == |clause.outputs| && InRange(members, resolved)
  {
    && d < |members|
    && MembersFit(matches, input, clause, members, d, resolved)
    && IsOutputFault(matches, input, clause.name, clause.outputs[d], members[d], resolved[members[d]], e)
  }

  /** The table after the first `n` outputs of a clause. */
  ghost function ClauseTable(clause: SpawnClause, members: seq<nat>, n: nat): Spawned
    requires n <= |clause.outputs| == |members|
  {
    if n == 0 then map[]
    else ClauseTable(clause, members, n - 1)[(clause.name, clause.outputs[n - 1].name) := members[n - 1]]
  }

  /** No later one of the first `n` declared outputs has the name of output `d`. */
  ghost predicate IsLastNamed(declared: seq<SpawnOutput>, n: nat, d: nat)
    requires n <= |declared|
  {
    d < n && forall e :: d < e < n ==> declared[e].name != declared[d].name
  }

  /** Of a clause, a table holds exactly the declared names, each at the member the last output of that name stands for. */
  ghost predicate HoldsClause(clause: SpawnClause, members: seq<nat>, n: nat, spawned: Spawned)
    requires n <= |clause.outputs| == |members|
  {
    && (forall d: nat {:trigger IsLastNamed(clause.outputs, n, d)} :: IsLastNamed(clause.outputs, n, d) ==>
          && (clause.name, clause.outputs[d].name) in spawned
          && spawned[(clause.name, clause.outputs[d].name)] == members[d])
    && (forall key: (string, string) :: key in spawned && key.0 == clause.name ==>
          exists d :: 0 <= d < n && clause.outputs[d].name == key.1)
  }

  lemma AddName(clause: SpawnClause, members: seq<nat>, n: nat, spawned: Spawned)
    requires n < |clause.outputs| == |members| && HoldsClause(clause, members, n, spawned)
    ensures HoldsClause(clause, members, n + 1, spawned[(clause.name, clause.outputs[n].name) := members[n]])
  {
    var name := clause.outputs[n].name;
    var after := spawned[(clause.name, name) := members[n]];
    forall d: nat | IsLastNamed(clause.outputs, n + 1, d)
      ensures (clause.name, clause.outputs[d].name) in after && after[(clause.name, clause.outputs[d].name)] == members[d]
    {
      if d < n {
        assert IsLastNamed(clause.outputs, n, d);
        assert clause.outputs[n].name != clause.outputs[d].name;
      }
    }
    forall key: (string, string) | key in after && key.0 == clause.name
      ensures exists d :: 0 <= d < n + 1 && clause.outputs[d].name == key.1
    {
      if key.1 == name { assert clause.outputs[n].name == key.1; }
    }
  }

  lemma {:induction false} ClauseTableHolds(clause: SpawnClause, members: seq<nat>, n: nat)
    requires n <= |clause.outputs| == |members|
    ensures HoldsClause(clause, members, n, ClauseTable(clause, members, n))
  {
    if n > 0 {
      ClauseTableHolds(clause, members, n - 1);
      AddName(clause, members, n - 1, ClauseTable(clause, members, n - 1));
    }
  }

  lemma {:induction false} ClauseTableKeys(clause: SpawnClause, members: seq<nat>, n: nat)
    requires n <= |clause.outputs| == |members|
    ensures OnlyNames(clause.name, ClauseTable(clause, members, n))
  {
    if n > 0 {
      ClauseTableKeys(clause, members, n - 1);
    }
  }

  ghost predicate OnlyNames(spawn: string, spawned: Spawned) {
    forall key: (string, string) :: key in spawned ==> key.0 == spawn
  }

  method ResolveMember(matches: Matcher, input: nat, spawn: string, declared: SpawnOutput, index: nat,
                       r: ResolvedOutput)
    returns (fault: Option<SpawnError>)
    ensures fault.None? <==> OutputFits(matches, input, declared, r)
    ensures fault.Some? ==> IsOutputFault(matches, input, spawn, declared, index, r, fault.value)
  {
    fault := None;
    match r.owner {
      case ResolvedSpk(_) => fault := Some(NoActor(spawn, declared.name, index));
      case ResolvedActor(contract, _) =>
        match matches(input, declared, contract) {
          case Err(source) => fault := Some(TargetLookup(source));
          case Ok(matched) =>
            if !matched { fault := Some(TargetMismatch(spawn, declared.name, index)); }
        }
    }
  }

  method ResolveGroup(matches: Matcher, input: nat, clause: SpawnClause, members: seq<nat>,
                      resolved: seq<ResolvedOutput>)
    returns (r: Result<Spawned, SpawnError>)
    requires InRange(members, resolved)
    ensures r.Ok? <==> GroupFits(matches, input, clause, members, resolved)
    ensures r.Ok? ==> r.value == ClauseTable(clause, members, |members|)
    ensures r.Err? ==> IsGroupFault(matches, input, clause, members, resolved, r.error)
  {
    if |members| != |clause.outputs| {
      return Err(WrongOutputCount(clause.name, |clause.outputs|, |members|));
    }
    var spawned: Spawned := map[];
    var d := 0;
    while d < |members|
      invariant 0 <= d <= |members|
      invariant MembersFit(matches, input, clause, members, d, resolved)
      invariant spawned == ClauseTable(clause, members, d)
    {
      var declared, index := clause.outputs[d], members[d];
      var fault := ResolveMember(matches, input, clause.name, declared, index, resolved[index]);
      if fault.Some? {
        assert IsMemberFault(matches, input, clause, members, d, resolved, fault.value);
        assert !OutputFits(matches, input, clause.outputs[d], resolved[members[d]]);
        return Err(fault.value);
      }
      spawned := spawned[(clause.name, declared.name) := index];
      d := d + 1;
    }
    r := Ok(spawned);
  }

  // ---------- The clauses of one input ----------

  /** The outputs each clause of an input claims. */
  ghost function Claims(outputs: seq<ContextOutput>, input: u16, clauses: seq<SpawnClause>): (r: seq<seq<nat>>)
    ensures |r| == |clauses|
    ensures forall c :: 0 <= c < |r| ==> r[c] == Members(outputs, input, Path(Spawn(clauses[c].name)))
  {
    seq(|clauses|, c requires 0 <= c < |clauses| => Members(outputs, input, Path(Spawn(clauses[c].name))))
  }

  ghost predicate ClauseFits(matches: Matcher, input: nat, clause: SpawnClause, members: seq<nat>,
                             resolved: seq<ResolvedOutput>) {
    members != [] && InRange(members, resolved) && GroupFits(matches, input, clause, members, resolved)
  }

  ghost predicate StartsBefore(a: seq<nat>, b: seq<nat>) {
    a != [] && b != [] && a[0] < b[0]
  }

  /** Clause `c` fits, and its group starts after that of the clause before it. */
  ghost predicate ClauseIsNext(matches: Matcher, input: nat, clauses: seq<SpawnClause>, claims: seq<seq<nat>>, c: nat,
                               resolved: seq<ResolvedOutput>)
    requires c < |clauses| == |claims|
  {
    && ClauseFits(matches, input, clauses[c], claims[c], resolved)
    && (c > 0 ==> StartsBefore(claims[c - 1], claims[c]))
  }

  ghost predicate ClausesFit(matches: Matcher, input: nat, clauses: seq<SpawnClause>, claims: seq<seq<nat>>, n: nat,
                             resolved: seq<ResolvedOutput>)
    requires n <= |clauses| == |claims|
  {
    forall c :: 0 <= c < n ==> ClauseIsNext(matches, input, clauses, claims, c, resolved)
  }

  /** The spawn clauses of an input can be resolved. */
  ghost predicate SpawnsFit(matches: Matcher, outputs: seq<ContextOutput>, input: nat, clauses: seq<SpawnClause>,
                            resolved: seq<ResolvedOutput>) {
    clauses != [] ==>
      input < 0x1_0000 && ClausesFit(matches, input, clauses, Claims(outputs, input, clauses), |clauses|, resolved)
  }

  /** Groups start in clause order, not only from one clause to the next. */
  lemma {:induction false} StartsIncrease(matches: Matcher, input: nat, clauses: seq<SpawnClause>,
                                          claims: seq<seq<nat>>, n: nat,
                                          resolved: seq<ResolvedOutput>, b: nat, c: nat)
    requires n <= |clauses| == |claims| && ClausesFit(matches, input, clauses, claims, n, resolved)
    requires b < c < n
    ensures StartsBefore(claims[b], claims[c])
    decreases c
  {
    assert ClauseIsNext(matches, input, clauses, claims, c, resolved);
    if b < c - 1 {
      StartsIncrease(matches, input, clauses, claims, n, resolved, b, c - 1);
    }
  }

  /** Distinct spawn clauses of an input have distinct names and claim disjoint outputs. */
  lemma ClausesAreDisjoint(matches: Matcher, outputs: seq<ContextOutput>, input: u16, clauses: seq<SpawnClause>, n: nat,
                           resolved: seq<ResolvedOutput>, b: nat, c: nat)
    requires n <= |clauses| && ClausesFit(matches, input, clauses, Claims(outputs, input, clauses), n, resolved)
    requires b < c < n
    ensures clauses[b].name != clauses[c].name
    ensures forall k :: !(k in Claims(outputs, input, clauses)[b] && k in Claims(outputs, input, clauses)[c])
  {
    StartsIncrease(matches, input, clauses, Claims(outputs, input, clauses), n, resolved, b, c);
    DistinctNamesAreDisjoint(outputs, input, clauses[b].name, clauses[c].name);
  }

  lemma DistinctNamesAreDisjoint(outputs: seq<ContextOutput>, input: u16, b: string, c: string)
    ensures b != c ==>
              forall k :: !(k in Members(outputs, input, Path(Spawn(b))) && k in Members(outputs, input, Path(Spawn(c))))
  {
    if Path(Spawn(b)) == Path(Spawn(c)) {
      PathIsInjective(Spawn(b), Spawn(c));
    }
  }

  /** The clause has outputs born for it, as many as it declares, and each of them holds the actor declared in its place. */
  ghost predicate FindsItsActors(matches: Matcher, outputs: seq<ContextOutput>, input: u16, clause: SpawnClause,
                                 resolved: seq<ResolvedOutput>) {
    var members := Members(outputs, input, "spawn::" + clause.name);
    && members != [] && |members| == |clause.outputs|
    && forall d :: 0 <= d < |members| ==>
      && members[d] < |resolved| && resolved[members[d]].owner.ResolvedActor?
      && matches(input, clause.outputs[d], resolved[members[d]].owner.contract) == Ok(true)
  }

  ghost predicate StartsEarlier(outputs: seq<ContextOutput>, input: u16, b: SpawnClause, c: SpawnClause) {
    StartsBefore(Members(outputs, input, "spawn::" + b.name), Members(outputs, input, "spawn::" + c.name))
  }

  /** When the clauses of an input with a 16-bit index resolve, spelled out: every clause finds its actors, and of any two
      clauses the earlier one's group starts first. */
  lemma SpawnsFitExactly(matches: Matcher, outputs: seq<ContextOutput>, input: u16, clauses: seq<SpawnClause>,
                         resolved: seq<ResolvedOutput>)
    ensures SpawnsFit(matches, outputs, input, clauses, resolved) <==>
              && (forall c :: 0 <= c < |clauses| ==> FindsItsActors(matches, outputs, input, clauses[c], resolved))
              && (forall b, c :: 0 <= b < c < |clauses| ==> StartsEarlier(outputs, input, clauses[b], clauses[c]))
  {
    var claims := Claims(outputs, input, clauses);
    forall c | 0 <= c < |clauses|
      ensures ClauseFits(matches, input, clauses[c], claims[c], resolved) <==>
                FindsItsActors(matches, outputs, input, clauses[c], resolved)
    {
      ClauseFitsExactly(matches, outputs, input, clauses[c], resolved);
    }
    if SpawnsFit(matches, outputs, input, clauses, resolved) {
      forall c | 0 <= c < |clauses| ensures FindsItsActors(matches, outputs, input, clauses[c], resolved) {
        assert ClauseIsNext(matches, input, clauses, claims, c, resolved);
      }
      forall b, c | 0 <= b < c < |clauses| ensures StartsEarlier(outputs, input, clauses[b], clauses[c]) {
        StartsIncrease(matches, input, clauses, claims, |clauses|, resolved, b, c);
      }
    } else {
      var c :| 0 <= c < |clauses| && !ClauseIsNext(matches, input, clauses, claims, c, resolved);
      assert c > 0 && StartsEarlier(outputs, input, clauses[c - 1], clauses[c]) ==> StartsBefore(claims[c - 1], claims[c]);
    }
  }

  lemma ClauseFitsExactly(matches: Matcher, outputs: seq<ContextOutput>, input: u16, clause: SpawnClause,
                          resolved: seq<ResolvedOutput>)
    ensures ClauseFits(matches, input, clause, Members(outputs, input, Path(Spawn(clause.name))), resolved) <==>
              FindsItsActors(matches, outputs, input, clause, resolved)
  {
    var members := Members(outputs, input, Path(Spawn(clause.name)));
    if FindsItsActors(matches, outputs, input, clause, resolved) {
      forall d | 0 <= d < |members| ensures OutputFits(matches, input, clause.outputs[d], resolved[members[d]]) {
      }
    }
    if ClauseFits(matches, input, clause, members, resolved) {
      forall d | 0 <= d < |members|
        ensures members[d] < |resolved| && resolved[members[d]].owner.ResolvedActor?
        ensures matches(input, clause.outputs[d], resolved[members[d]].owner.contract) == Ok(true)
      {
        assert OutputFits(matches, input, clause.outputs[d], resolved[members[d]]);
      }
    }
  }

  ghost predicate CountsFit(clauses: seq<SpawnClause>, claims: seq<seq<nat>>, n: nat) {
    n <= |clauses| == |claims| && forall c :: 0 <= c < n ==> |claims[c]| == |clauses[c].outputs|
  }

  ghost predicate NamesDiffer(clauses: seq<SpawnClause>, n: nat)
    requires n <= |clauses|
  {
    forall b, c :: 0 <= b < c < n ==> clauses[b].name != clauses[c].name
  }

  /** The table after the first `n` clauses of an input. */
  ghost function InputTable(clauses: seq<SpawnClause>, claims: seq<seq<nat>>, n: nat): Spawned
    requires CountsFit(clauses, claims, n)
  {
    if n == 0 then map[]
    else InputTable(clauses, claims, n - 1) + ClauseTable(clauses[n - 1], claims[n - 1], |claims[n - 1]|)
  }

  lemma SameEntries(clause: SpawnClause, members: seq<nat>, n: nat, small: Spawned, big: Spawned)
    requires n <= |clause.outputs| == |members| && HoldsClause(clause, members, n, small)
    requires forall key: (string, string) :: key.0 == clause.name ==> (key in small <==> key in big)
    requires forall key: (string, string) :: key.0 == clause.name && key in small ==> small[key] == big[key]
    ensures HoldsClause(clause, members, n, big)
  {
  }

  ghost predicate NamesClause(clauses: seq<SpawnClause>, n: nat, name: string)
    requires n <= |clauses|
  {
    exists c :: 0 <= c < n && clauses[c].name == name
  }

  ghost predicate OnlyClauses(clauses: seq<SpawnClause>, n: nat, spawned: Spawned)
    requires n <= |clauses|
  {
    forall key: (string, string) :: key in spawned ==> NamesClause(clauses, n, key.0)
  }

  lemma MoreClauses(clauses: seq<SpawnClause>, n: nat, before: Spawned, group: Spawned)
    requires 0 < n <= |clauses| && OnlyClauses(clauses, n - 1, before) && OnlyNames(clauses[n - 1].name, group)
    ensures OnlyClauses(clauses, n, before + group)
  {
    forall key: (string, string) | key in before + group ensures NamesClause(clauses, n, key.0) {
      if key in group {
        assert clauses[n - 1].name == key.0;
      } else {
        assert NamesClause(clauses, n - 1, key.0);
      }
    }
  }

  lemma {:induction false} InputTableKeys(clauses: seq<SpawnClause>, claims: seq<seq<nat>>, n: nat)
    requires CountsFit(clauses, claims, n)
    ensures OnlyClauses(clauses, n, InputTable(clauses, claims, n))
  {
    if n > 0 {
      InputTableKeys(clauses, claims, n - 1);
      ClauseTableKeys(clauses[n - 1], claims[n - 1], |claims[n - 1]|);
      MoreClauses(clauses, n, InputTable(clauses, claims, n - 1), ClauseTable(clauses[n - 1], claims[n - 1], |claims[n - 1]|));
    }
  }

  lemma NotNamedBefore(clauses: seq<SpawnClause>, n: nat, before: Spawned)
    requires 0 < n <= |clauses| && NamesDiffer(clauses, n) && OnlyClauses(clauses, n - 1, before)
    ensures forall key: (string, string) :: key in before ==> key.0 != clauses[n - 1].name
  {
    forall key: (string, string) | key in before ensures key.0 != clauses[n - 1].name {
      assert NamesClause(clauses, n - 1, key.0);
    }
  }

  /** Adding a table of one new name leaves the entries of other clauses alone. */
  lemma ClaimSurvives(clause: SpawnClause, members: seq<nat>, spawn: string, before: Spawned, group: Spawned)
    requires |clause.outputs| == |members| && OnlyNames(spawn, group) && clause.name != spawn
    requires HoldsClause(clause, members, |members|, before)
    ensures HoldsClause(clause, members, |members|, before + group)
  {
    SameEntries(clause, members, |members|, before, before + group);
  }

  /** Adding a table under a name not yet used gives exactly its entries for that name. */
  lemma ClaimIsAdded(clause: SpawnClause, members: seq<nat>, before: Spawned, group: Spawned)
    requires |clause.outputs| == |members| && HoldsClause(clause, members, |members|, group)
    requires forall key: (string, string) :: key in before ==> key.0 != clause.name
    ensures HoldsClause(clause, members, |members|, before + group)
  {
    SameEntries(clause, members, |members|, group, before + group);
  }

  /** The table of an input holds, for each clause, exactly the outputs that clause claims. */
  lemma {:induction false} InputTableHolds(clauses: seq<SpawnClause>, claims: seq<seq<nat>>, n: nat, c: nat)
    requires CountsFit(clauses, claims, n) && NamesDiffer(clauses, n) && c < n
    ensures HoldsClause(clauses[c], claims[c], |claims[c]|, InputTable(clauses, claims, n))
  {
    var last, members := clauses[n - 1], claims[n - 1];
    var before, group := InputTable(clauses, claims, n - 1), ClauseTable(last, members, |members|);
    if c == n - 1 {
      InputTableKeys(clauses, claims, n - 1);
      NotNamedBefore(clauses, n, before);
      ClauseTableHolds(last, members, |members|);
      ClaimIsAdded(last, members, before, group);
    } else {
      InputTableHolds(clauses, claims, n - 1, c);
      ClauseTableKeys(last, members, |members|);
      ClaimSurvives(clauses[c], claims[c], last.name, before, group);
    }
  }

  /** The table of an input: empty without clauses, otherwise built from exactly what its clauses claim. */
  ghost predicate HoldsSpawns(outputs: seq<ContextOutput>, input: nat, clauses: seq<SpawnClause>, spawned: Spawned) {
    if clauses == [] then spawned == map[]
    else
      && input < 0x1_0000
      && CountsFit(clauses, Claims(outputs, input, clauses), |clauses|)
      && spawned == InputTable(clauses, Claims(outputs, input, clauses), |clauses|)
  }

  /** Resolved spawns mean what they say: every declared name of every clause leads to the output standing at
      that place in the clause's own group, and the table names nothing else. */
  lemma SpawnsAreFound(matches: Matcher, outputs: seq<ContextOutput>, input: nat, clauses: seq<SpawnClause>,
                       resolved: seq<ResolvedOutput>, spawned: Spawned, c: nat)
    requires SpawnsFit(matches, outputs, input, clauses, resolved) && HoldsSpawns(outputs, input, clauses, spawned)
    requires c < |clauses|
    ensures input < 0x1_0000
    ensures var members := Members(outputs, input, Path(Spawn(clauses[c].name)));
      |members| == |clauses[c].outputs| && HoldsClause(clauses[c], members, |members|, spawned)
    ensures OnlyClauses(clauses, |clauses|, spawned)
  {
    var claims, n := Claims(outputs, input, clauses), |clauses|;
    forall a, b | 0 <= a < b < n ensures clauses[a].name != clauses[b].name {
      ClausesAreDisjoint(matches, outputs, input, clauses, n, resolved, a, b);
    }
    InputTableHolds(clauses, claims, n, c);
    InputTableKeys(clauses, claims, n);
  }

  // ---------- Errors ----------

  /** What is said of an input whose spawns cannot be resolved is so, and concerns the first clause that does not fit. */
  ghost predicate IsSpawnFault(matches: Matcher, outputs: seq<ContextOutput>, input: nat, clauses: seq<SpawnClause>,
                               resolved: seq<ResolvedOutput>, e: SpawnError) {
    if input >= 0x1_0000 then e == InputIndexOverflow(input)
    else exists c: nat :: IsFirstClauseFault(matches, input, clauses, Claims(outputs, input, clauses), c, resolved, e)
  }

  ghost predicate IsFirstClauseFault(matches: Matcher, input: nat, clauses: seq<SpawnClause>, claims: seq<seq<nat>>,
                                     c: nat, resolved: seq<ResolvedOutput>, e: SpawnError)
    requires |clauses| == |claims|
  {
    && c < |clauses|
    && ClausesFit(matches, input, clauses, claims, c, resolved)
    && IsClauseFault(matches, input, clauses, claims, c, resolved, e)
  }

  ghost predicate IsClauseFault(matches: Matcher, input: nat, clauses: seq<SpawnClause>, claims: seq<seq<nat>>,
                                c: nat, resolved: seq<ResolvedOutput>, e: SpawnError)
    requires c < |clauses| == |claims|
  {
    var members := claims[c];
    if members == [] then e == MissingSpawnGroup(input, clauses[c].name)
    else if c > 0 && !StartsBefore(claims[c - 1], members) then e == GroupsOutOfOrder(clauses[c].name)
    else InRange(members, resolved) && IsGroupFault(matches, input, clauses[c], members, resolved, e)
  }

  /** Finds and validates the group of one clause, given where the group of the clause before it starts. */
  method ResolveClause(ghost builder: Builder, ghost inputs: seq<Input>, ghost outputs: seq<ContextOutput>,
                       ghost ids: StateContext,
                       matches: Matcher, resolved: seq<ResolvedOutput>, input: u16,
                       clauses: seq<SpawnClause>, ghost claims: seq<seq<nat>>, c: nat, previous: Option<nat>)
    returns (r: Result<(nat, Spawned), SpawnError>)
    requires Resolved(builder, inputs, outputs, ids, |outputs|, resolved)
    requires c < |clauses| && claims == Claims(outputs, input, clauses)
    requires c == 0 ==> previous == None
    requires c > 0 ==> claims[c - 1] != [] && previous == Some(claims[c - 1][0])
    ensures r.Ok? <==> ClauseIsNext(matches, input, clauses, claims, c, resolved)
    ensures r.Ok? ==>
              && claims[c] != [] && |claims[c]| == |clauses[c].outputs|
              && r.value == (claims[c][0], ClauseTable(clauses[c], claims[c], |claims[c]|))
    ensures r.Err? ==> IsClauseFault(matches, input, clauses, claims, c, resolved, r.error)
  {
    var clause := clauses[c];
    var group := NamedGroup(builder, inputs, outputs, ids, resolved, GroupKey(input, Spawn(clause.name)));
    if group.None? {
      return Err(MissingSpawnGroup(input, clause.name));
    }
    var first := group.value[0];
    if previous.Some? && previous.value >= first {
      return Err(GroupsOutOfOrder(clause.name));
    }
    var spawned := ResolveGroup(matches, input, clause, group.value, resolved);
    if spawned.Err? {
      return Err(spawned.error);
    }
    r := Ok((first, spawned.value));
  }

  /** Where an input stands before clause `c`: the clauses so far fit, and `previous` is the start of the last group. */
  ghost predicate Standing(matches: Matcher, input: nat, clauses: seq<SpawnClause>, claims: seq<seq<nat>>, c: nat,
                           resolved: seq<ResolvedOutput>, previous: Option<nat>, spawned: Spawned)
    requires c <= |clauses| == |claims|
  {
    && ClausesFit(matches, input, clauses, claims, c, resolved)
    && CountsFit(clauses, claims, c)
    && spawned == InputTable(clauses, claims, c)
    && (c == 0 ==> previous == None)
    && (c > 0 ==> claims[c - 1] != [] && previous == Some(claims[c - 1][0]))
  }

  lemma StandingAtTheStart(matches: Matcher, input: nat, clauses: seq<SpawnClause>, claims: seq<seq<nat>>,
                           resolved: seq<ResolvedOutput>)
    requires |clauses| == |claims|
    ensures Standing(matches, input, clauses, claims, 0, resolved, None, map[])
  {
  }

  lemma NextStanding(matches: Matcher, input: nat, clauses: seq<SpawnClause>, claims: seq<seq<nat>>, c: nat,
                     resolved: seq<ResolvedOutput>, previous: Option<nat>, spawned: Spawned)
    requires c < |clauses| == |claims| && Standing(matches, input, clauses, claims, c, resolved, previous, spawned)
    requires ClauseIsNext(matches, input, clauses, claims, c, resolved)
    ensures claims[c] != [] && |claims[c]| == |clauses[c].outputs|
    ensures Standing(matches, input, clauses, claims, c + 1, resolved, Some(claims[c][0]),
                     spawned + ClauseTable(clauses[c], claims[c], |claims[c]|))
  {
  }

  lemma FaultIsReal(matches: Matcher, outputs: seq<ContextOutput>, input: u16, clauses: seq<SpawnClause>, c: nat,
                    resolved: seq<ResolvedOutput>, e: SpawnError)
    requires c < |clauses| && ClausesFit(matches, input, clauses, Claims(outputs, input, clauses), c, resolved)
    requires IsClauseFault(matches, input, clauses, Claims(outputs, input, clauses), c, resolved, e)
    requires !ClauseIsNext(matches, input, clauses, Claims(outputs, input, clauses), c, resolved)
    ensures !SpawnsFit(matches, outputs, input, clauses, resolved)
    ensures IsSpawnFault(matches, outputs, input, clauses, resolved, e)
  {
    assert IsFirstClauseFault(matches, input, clauses, Claims(outputs, input, clauses), c, resolved, e);
  }

  lemma StandingAtTheEnd(matches: Matcher, outputs: seq<ContextOutput>, input: u16, clauses: seq<SpawnClause>,
                         resolved: seq<ResolvedOutput>, previous: Option<nat>, spawned: Spawned)
    requires Standing(matches, input, clauses, Claims(outputs, input, clauses), |clauses|, resolved, previous, spawned)
    ensures SpawnsFit(matches, outputs, input, clauses, resolved)
    ensures clauses != [] ==> HoldsSpawns(outputs, input, clauses, spawned)
  {
  }

  /** Adds what one clause claims to the table. */
  method AddClause(ghost builder: Builder, ghost inputs: seq<Input>, ghost outputs: seq<ContextOutput>,
                   ghost ids: StateContext,
                   matches: Matcher, resolved: seq<ResolvedOutput>, input: u16,
                   clauses: seq<SpawnClause>, ghost claims: seq<seq<nat>>, c: nat, previous: Option<nat>, spawned: Spawned)
    returns (r: Result<(Option<nat>, Spawned), SpawnError>)
    requires Resolved(builder, inputs, outputs, ids, |outputs|, resolved)
    requires c < |clauses| && claims == Claims(outputs, input, clauses)
    requires Standing(matches, input, clauses, claims, c, resolved, previous, spawned)
    ensures r.Ok? ==> Standing(matches, input, clauses, claims, c + 1, resolved, r.value.0, r.value.1)
    ensures r.Err? ==>
              && !SpawnsFit(matches, outputs, input, clauses, resolved)
              && IsSpawnFault(matches, outputs, input, clauses, resolved, r.error)
  {
    var found := ResolveClause(builder, inputs, outputs, ids, matches, resolved, input, clauses, claims, c, previous);
    if found.Err? {
      FaultIsReal(matches, outputs, input, clauses, c, resolved, found.error);
      return Err(found.error);
    }
    NextStanding(matches, input, clauses, claims, c, resolved, previous, spawned);
    r := Ok((Some(found.value.0), spawned + found.value.1));
  }

  method ResolveClauses(ghost builder: Builder, ghost inputs: seq<Input>, ghost outputs: seq<ContextOutput>,
                        ghost ids: StateContext,
                        matches: Matcher, resolved: seq<ResolvedOutput>, input: u16, clauses: seq<SpawnClause>)
    returns (r: Result<Spawned, SpawnError>)
    requires Resolved(builder, inputs, outputs, ids, |outputs|, resolved) && clauses != []
    ensures r.Ok? <==> SpawnsFit(matches, outputs, input, clauses, resolved)
    ensures r.Ok? ==> HoldsSpawns(outputs, input, clauses, r.value)
    ensures r.Err? ==> IsSpawnFault(matches, outputs, input, clauses, resolved, r.error)
  {
    ghost var claims := Claims(outputs, input, clauses);
    var spawned: Spawned := map[];
    var previous: Option<nat> := None;
    assert Standing(matches, input, clauses, claims, 0, resolved, None, map[]) by {
      StandingAtTheStart(matches, input, clauses, claims, resolved);
    }
    for c := 0 to |clauses|
      invariant Standing(matches, input, clauses, claims, c, resolved, previous, spawned)
    {
      var next := AddClause(builder, inputs, outputs, ids, matches, resolved, input, clauses, claims, c, previous, spawned);
      if next.Err? {
        return Err(next.error);
      }
      previous, spawned := next.value.0, next.value.1;
    }
    StandingAtTheEnd(matches, outputs, input, clauses, resolved, previous, spawned);
    r := Ok(spawned);
  }

  method ResolveInputSpawns(ghost builder: Builder, ghost inputs: seq<Input>, ghost outputs: seq<ContextOutput>,
                            ghost ids: StateContext,
                            matches: Matcher, resolved: seq<ResolvedOutput>, input: nat, clauses: seq<SpawnClause>)
    returns (r: Result<Spawned, SpawnError>)
    requires Resolved(builder, inputs, outputs, ids, |outputs|, resolved)
    ensures r.Ok? <==> SpawnsFit(matches, outputs, input, clauses, resolved)
    ensures r.Ok? ==> HoldsSpawns(outputs, input, clauses, r.value)
    ensures r.Err? ==> IsSpawnFault(matches, outputs, input, clauses, resolved, r.error)
  {
    if clauses == [] {
      r := Ok(map[]);
    } else if input >= 0x1_0000 {
      r := Err(InputIndexOverflow(input));
    } else {
      r := ResolveClauses(builder, inputs, outputs, ids, matches, resolved, input, clauses);
    }
  }

  // ---------- All inputs ----------

  ghost predicate InputFits(matches: Matcher, inputs: seq<Input>, outputs: seq<ContextOutput>, i: nat,
                            resolved: seq<ResolvedOutput>)
    requires i < |inputs|
  {
    inputs[i].ActorInput? ==> SpawnsFit(matches, outputs, i, inputs[i].spawns, resolved)
  }

  ghost predicate InputHolds(inputs: seq<Input>, outputs: seq<ContextOutput>, i: nat, table: Option<Spawned>)
    requires i < |inputs|
  {
    match inputs[i]
    case OrdinaryInput(_) => table == None
    case ActorInput(_, spawns) => table.Some? && HoldsSpawns(outputs, i, spawns, table.value)
  }

  ghost predicate IsInputFault(matches: Matcher, inputs: seq<Input>, outputs: seq<ContextOutput>, i: nat,
                               resolved: seq<ResolvedOutput>, e: SpawnError) {
    && i < |inputs| && inputs[i].ActorInput?
    && !InputFits(matches, inputs, outputs, i, resolved)
    && IsSpawnFault(matches, outputs, i, inputs[i].spawns, resolved, e)
  }

  ghost predicate InputsFit(matches: Matcher, inputs: seq<Input>, outputs: seq<ContextOutput>, n: nat,
                            resolved: seq<ResolvedOutput>)
    requires n <= |inputs|
  {
    forall i :: 0 <= i < n ==> InputFits(matches, inputs, outputs, i, resolved)
  }

  ghost predicate InputsHold(inputs: seq<Input>, outputs: seq<ContextOutput>, n: nat, tables: seq<Option<Spawned>>)
    requires n <= |inputs|
  {
    |tables| == n && forall i :: 0 <= i < n ==> InputHolds(inputs, outputs, i, tables[i])
  }

  /** The error is that of the first input whose spawns cannot be resolved. */
  ghost predicate IsFirstInputFault(matches: Matcher, inputs: seq<Input>, outputs: seq<ContextOutput>, i: nat,
                                    resolved: seq<ResolvedOutput>, e: SpawnError) {
    && i < |inputs|
    && InputsFit(matches, inputs, outputs, i, resolved)
    && IsInputFault(matches, inputs, outputs, i, resolved, e)
  }

  method ResolveInput(ghost builder: Builder, inputs: seq<Input>, ghost outputs: seq<ContextOutput>,
                      ghost ids: StateContext,
                      matches: Matcher, resolved: seq<ResolvedOutput>, i: nat)
    returns (r: Result<Option<Spawned>, SpawnError>)
    requires Resolved(builder, inputs, outputs, ids, |outputs|, resolved) && i < |inputs|
    ensures r.Ok? <==> InputFits(matches, inputs, outputs, i, resolved)
    ensures r.Ok? ==> InputHolds(inputs, outputs, i, r.value)
    ensures r.Err? ==> IsInputFault(matches, inputs, outputs, i, resolved, r.error)
  {
    match inputs[i] {
      case OrdinaryInput(_) =>
        r := Ok(None);
      case ActorInput(_, spawns) =>
        var table := ResolveInputSpawns(builder, inputs, outputs, ids, matches, resolved, i, spawns);
        r := if table.Err? then Err(table.error) else Ok(Some(table.value));
    }
  }

  /** Resolves the spawn clauses of every actor input: it succeeds exactly when every clause finds its own group, in order. */
  method ResolveSpawns(ghost builder: Builder, inputs: seq<Input>, ghost outputs: seq<ContextOutput>,
                       ghost ids: StateContext,
                       matches: Matcher, resolved: seq<ResolvedOutput>)
    returns (r: Result<seq<Option<Spawned>>, SpawnError>)
    requires Resolved(builder, inputs, outputs, ids, |outputs|, resolved)
    ensures r.Ok? <==> InputsFit(matches, inputs, outputs, |inputs|, resolved)
    ensures r.Ok? ==> InputsHold(inputs, outputs, |inputs|, r.value)
    ensures r.Err? ==> exists i: nat :: IsFirstInputFault(matches, inputs, outputs, i, resolved, r.error)
  {
    var tables: seq<Option<Spawned>> := [];
    var i := 0;
    while i < |inputs|
      invariant 0 <= i <= |inputs|
      invariant InputsFit(matches, inputs, outputs, i, resolved)
      invariant InputsHold(inputs, outputs, i, tables)
    {
      var table := ResolveInput(builder, inputs, outputs, ids, matches, resolved, i);
      if table.Err? {
        assert IsFirstInputFault(matches, inputs, outputs, i, resolved, table.error);
        return Err(table.error);
      }
      tables := tables + [table.value];
      i := i + 1;
    }
    r := Ok(tables);
  }
}
