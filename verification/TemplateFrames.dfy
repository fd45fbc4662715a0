/** Compiled template frames: a fixed prefix, state bytes of a fixed length, and a fixed suffix. */
module TemplateFrames {
  import opened Wrappers
  import opened Ordering
  import opened Hex

  /** One past the largest machine word. */
  const USIZE_LIMIT := 0x1_0000_0000_0000_0000

  datatype Contract = Contract(bytecode: seq<Byte>, offset: nat, stateLen: nat)

  datatype Actor = Actor(name: Name, contract: Name)

  datatype ActorFrame = ActorFrame(actor: Name, prefix: seq<Byte>, stateLen: nat, suffix: seq<Byte>, totalLen: nat)

  datatype FrameLengths = FrameLengths(prefix: nat, state: nat, suffix: nat, total: nat)

  datatype FrameError =
    | MissingContract(actor: Name, contract: Name)
    | InvalidStateSpan(actor: Name, contract: Name, offset: nat, stateLen: nat, totalLen: nat)
    | Ambiguous(first: Name, firstFrame: FrameLengths, second: Name, secondFrame: FrameLengths)

  predicate EndsWith(s: seq<Byte>, suffix: seq<Byte>) {
    |suffix| <= |s| && s[|s| - |suffix|..] == suffix
  }

  function Lengths(f: ActorFrame): FrameLengths {
    FrameLengths(|f.prefix|, f.stateLen, |f.suffix|, f.totalLen)
  }

  /** The conservative rule: equal length, one prefix extending the other, one suffix extending the other. */
  predicate ConflictsWith(f: ActorFrame, g: ActorFrame) {
    && f.totalLen == g.totalLen
    && (g.prefix <= f.prefix || f.prefix <= g.prefix)
    && (EndsWith(f.suffix, g.suffix) || EndsWith(g.suffix, f.suffix))
  }

  function CheckedAdd(a: nat, b: nat): Option<nat> {
    if a + b < USIZE_LIMIT then Some(a + b) else None
  }

  function ExtractFrame(actor: Actor, contract: Contract): Result<ActorFrame, FrameError> {
    var total := |contract.bytecode|;
    match CheckedAdd(contract.offset, contract.stateLen)
    case Some(stateEnd) =>
      if stateEnd <= total then
        Ok(ActorFrame(actor.name, contract.bytecode[..contract.offset], contract.stateLen, contract.bytecode[stateEnd..], total))
      else Err(InvalidStateSpan(actor.name, actor.contract, contract.offset, contract.stateLen, total))
    case None => Err(InvalidStateSpan(actor.name, actor.contract, contract.offset, contract.stateLen, total))
  }

  function FrameOf(contracts: map<Name, Contract>, actor: Actor): Result<ActorFrame, FrameError> {
    if actor.contract !in contracts then Err(MissingContract(actor.name, actor.contract))
    else ExtractFrame(actor, contracts[actor.contract])
  }

  // ---------- Scripts ----------

  ghost predicate WellFormed(f: ActorFrame) {
    f.totalLen == |f.prefix| + f.stateLen + |f.suffix|
  }

  /** The script is the frame around some state bytes. */
  ghost predicate IsScriptOf(f: ActorFrame, script: seq<Byte>) {
    exists state: seq<Byte> :: |state| == f.stateLen && script == f.prefix + state + f.suffix
  }

  /** Seen from its bytes, a script of a frame starts with the prefix and ends with the suffix. */
  lemma ScriptShape(f: ActorFrame, script: seq<Byte>)
    requires WellFormed(f)
    ensures IsScriptOf(f, script) <==> |script| == f.totalLen && f.prefix <= script && EndsWith(script, f.suffix)
  {
    if |script| == f.totalLen && f.prefix <= script && EndsWith(script, f.suffix) {
      var state := script[|f.prefix|..|f.prefix| + f.stateLen];
      assert script == f.prefix + state + f.suffix;
    }
  }

  /** Where the prefix of `f` reaches into the suffix of `g`, the two have the same bytes. */
  ghost predicate OverlapAgrees(f: ActorFrame, g: ActorFrame)
    requires f.totalLen == g.totalLen && WellFormed(g)
  {
    forall i :: g.totalLen - |g.suffix| <= i < |f.prefix| ==>
      i < g.totalLen && f.prefix[i] == g.suffix[i - (g.totalLen - |g.suffix|)]
  }

  /** Two frames have a common script. */
  ghost predicate Collide(f: ActorFrame, g: ActorFrame) {
    exists script :: IsScriptOf(f, script) && IsScriptOf(g, script)
  }

  lemma CollidingFramesConflict(f: ActorFrame, g: ActorFrame)
    requires WellFormed(f) && WellFormed(g) && Collide(f, g)
    ensures ConflictsWith(f, g) && OverlapAgrees(f, g) && OverlapAgrees(g, f)
  {
    var script :| IsScriptOf(f, script) && IsScriptOf(g, script);
    ScriptShape(f, script);
    ScriptShape(g, script);
    SuffixesNest(script, f.suffix, g.suffix);
    SharedScriptAgrees(f, g, script);
    SharedScriptAgrees(g, f, script);
  }

  lemma SharedScriptAgrees(f: ActorFrame, g: ActorFrame, script: seq<Byte>)
    requires WellFormed(f) && WellFormed(g) && |script| == f.totalLen == g.totalLen
    requires f.prefix <= script && EndsWith(script, g.suffix)
    ensures OverlapAgrees(f, g)
  {
    forall i | g.totalLen - |g.suffix| <= i < |f.prefix|
      ensures f.prefix[i] == g.suffix[i - (g.totalLen - |g.suffix|)]
    {
      assert f.prefix[i] == script[i] == script[g.totalLen - |g.suffix|..][i - (g.totalLen - |g.suffix|)];
    }
  }

  lemma SuffixesNest(s: seq<Byte>, a: seq<Byte>, b: seq<Byte>)
    requires EndsWith(s, a) && EndsWith(s, b)
    ensures EndsWith(a, b) || EndsWith(b, a)
  {
    if |b| <= |a| {
      assert a[|a| - |b|..] == s[|s| - |a|..][|a| - |b|..] == s[|s| - |b|..];
    } else {
      assert b[|b| - |a|..] == s[|s| - |b|..][|b| - |a|..] == s[|s| - |a|..];
    }
  }

  /** The byte the two frames force at a position, or zero where neither does. */
  function ForcedByte(f: ActorFrame, g: ActorFrame, i: nat): Byte
    requires f.totalLen == g.totalLen && i < f.totalLen
    requires |f.suffix| <= f.totalLen && |g.suffix| <= g.totalLen
  {
    if i < |f.prefix| then f.prefix[i]
    else if i < |g.prefix| then g.prefix[i]
    else if f.totalLen - |f.suffix| <= i then f.suffix[i - (f.totalLen - |f.suffix|)]
    else if g.totalLen - |g.suffix| <= i then g.suffix[i - (g.totalLen - |g.suffix|)]
    else 0
  }

  lemma SuffixBytesAgree(f: ActorFrame, g: ActorFrame, i: nat)
    requires f.totalLen == g.totalLen && |f.suffix| <= f.totalLen && |g.suffix| <= g.totalLen
    requires EndsWith(f.suffix, g.suffix) || EndsWith(g.suffix, f.suffix)
    requires f.totalLen - |f.suffix| <= i < f.totalLen && g.totalLen - |g.suffix| <= i
    ensures f.suffix[i - (f.totalLen - |f.suffix|)] == g.suffix[i - (g.totalLen - |g.suffix|)]
  {
    if EndsWith(f.suffix, g.suffix) {
      assert f.suffix[|f.suffix| - |g.suffix|..][i - (g.totalLen - |g.suffix|)] == f.suffix[i - (f.totalLen - |f.suffix|)];
    } else {
      assert g.suffix[|g.suffix| - |f.suffix|..][i - (f.totalLen - |f.suffix|)] == g.suffix[i - (g.totalLen - |g.suffix|)];
    }
  }

  ghost function ForcedScript(f: ActorFrame, g: ActorFrame): seq<Byte>
    requires WellFormed(f) && WellFormed(g) && f.totalLen == g.totalLen
  {
    seq(f.totalLen, i requires 0 <= i < f.totalLen => ForcedByte(f, g, i))
  }

  lemma ForcedScriptFitsFirst(f: ActorFrame, g: ActorFrame)
    requires WellFormed(f) && WellFormed(g) && ConflictsWith(f, g) && OverlapAgrees(f, g) && OverlapAgrees(g, f)
    ensures IsScriptOf(f, ForcedScript(f, g))
  {
    var script := ForcedScript(f, g);
    forall i | 0 <= i < |f.suffix| ensures script[f.totalLen - |f.suffix|..][i] == f.suffix[i] {
      var at := f.totalLen - |f.suffix| + i;
      assert script[at] == ForcedByte(f, g, at);
    }
    ScriptShape(f, script);
  }

  lemma ForcedScriptFitsSecond(f: ActorFrame, g: ActorFrame)
    requires WellFormed(f) && WellFormed(g) && ConflictsWith(f, g) && OverlapAgrees(f, g) && OverlapAgrees(g, f)
    ensures IsScriptOf(g, ForcedScript(f, g))
  {
    var script := ForcedScript(f, g);
    forall i | 0 <= i < |g.suffix| ensures script[g.totalLen - |g.suffix|..][i] == g.suffix[i] {
      var at := g.totalLen - |g.suffix| + i;
      assert script[at] == ForcedByte(f, g, at);
      if |f.prefix| <= at && |g.prefix| <= at && f.totalLen - |f.suffix| <= at {
        SuffixBytesAgree(f, g, at);
      }
    }
    ScriptShape(g, script);
  }

  /** Two frames have a common script exactly when the conservative rule finds a conflict
      and neither prefix contradicts the other's suffix. */
  lemma CollideIffConflictAndOverlapsAgree(f: ActorFrame, g: ActorFrame)
    requires WellFormed(f) && WellFormed(g)
    ensures Collide(f, g) <==> ConflictsWith(f, g) && OverlapAgrees(f, g) && OverlapAgrees(g, f)
  {
    if ConflictsWith(f, g) && OverlapAgrees(f, g) && OverlapAgrees(g, f) {
      var script := ForcedScript(f, g);
      ForcedScriptFitsFirst(f, g);
      ForcedScriptFitsSecond(f, g);
      assert IsScriptOf(f, script) && IsScriptOf(g, script);
    }
    if Collide(f, g) {
      CollidingFramesConflict(f, g);
    }
  }

  /** When each prefix ends before the other's suffix begins, the conservative rule is exact. */
  lemma ConservativeRuleIsExact(f: ActorFrame, g: ActorFrame)
    requires WellFormed(f) && WellFormed(g)
    requires |f.prefix| + |g.suffix| <= g.totalLen && |g.prefix| + |f.suffix| <= f.totalLen
    ensures ConflictsWith(f, g) <==> Collide(f, g)
  {
    CollideIffConflictAndOverlapsAgree(f, g);
  }

  /** The rule is conservative: these frames conflict, and no script is both. */
  lemma ConservativeRuleOverrejects(f: ActorFrame, g: ActorFrame)
    requires f == ActorFrame([65], [1, 2, 3, 4], 1, [9], 6)
    requires g == ActorFrame([66], [1], 1, [6, 7, 8, 9], 6)
    ensures ConflictsWith(f, g) && !Collide(f, g)
  {
    CollideIffConflictAndOverlapsAgree(f, g);
    assert f.prefix[2] != g.suffix[0];
    assert [6, 7, 8, 9][3..] == [9];
  }

  // ---------- Verification ----------

  ghost predicate Framed(contracts: map<Name, Contract>, actors: seq<Actor>) {
    forall a :: a in actors ==> FrameOf(contracts, a).Ok?
  }

  predicate ActorsConflict(contracts: map<Name, Contract>, a: Actor, b: Actor) {
    && FrameOf(contracts, a).Ok? && FrameOf(contracts, b).Ok?
    && ConflictsWith(FrameOf(contracts, a).value, FrameOf(contracts, b).value)
  }

  ghost predicate NoConflicts(contracts: map<Name, Contract>, actors: seq<Actor>) {
    forall i, j :: 0 <= i < j < |actors| ==> !ActorsConflict(contracts, actors[i], actors[j])
  }

  /** Insert an actor before the first one of no smaller name. */
  function InsertByName(x: Actor, sorted: seq<Actor>): (r: seq<Actor>)
    ensures forall a :: a in r <==> a == x || a in sorted
    ensures multiset(r) == multiset{x} + multiset(sorted)
  {
    assert sorted != [] ==> sorted == [sorted[0]] + sorted[1..];
    if sorted == [] then [x]
    else if LexLess(sorted[0].name, x.name) then [sorted[0]] + InsertByName(x, sorted[1..])
    else [x] + sorted
  }

  /** A stable sort by name. */
  function SortByName(actors: seq<Actor>): (r: seq<Actor>)
    ensures forall a :: a in r <==> a in actors
    ensures multiset(r) == multiset(actors)
  {
    assert actors != [] ==> actors == [actors[0]] + actors[1..];
    if actors == [] then [] else InsertByName(actors[0], SortByName(actors[1..]))
  }

  ghost predicate SortedByName(actors: seq<Actor>) {
    forall i, j :: 0 <= i < j < |actors| ==> !LexLess(actors[j].name, actors[i].name)
  }

  lemma {:induction false} InsertKeepsSorted(x: Actor, sorted: seq<Actor>)
    requires SortedByName(sorted)
    ensures SortedByName(InsertByName(x, sorted))
  {
    if sorted != [] {
      var r := InsertByName(x, sorted);
      if LexLess(sorted[0].name, x.name) {
        var rest := InsertByName(x, sorted[1..]);
        InsertKeepsSorted(x, sorted[1..]);
        forall j | 0 <= j < |rest| ensures !LexLess(rest[j].name, sorted[0].name) {
          assert rest[j] in rest;
          if rest[j] == x {
            if LexLess(x.name, sorted[0].name) {
              LexTransitive(x.name, sorted[0].name, x.name);
              LexIrreflexive(x.name);
            }
          } else {
            var k :| 0 <= k < |sorted[1..]| && sorted[1..][k] == rest[j];
            assert sorted[k + 1] == rest[j];
          }
        }
      } else {
        forall j | 0 <= j < |sorted| ensures !LexLess(sorted[j].name, x.name) {
          if LexLess(sorted[j].name, x.name) && j != 0 {
            LexConnected(sorted[0].name, sorted[j].name);
            if LexLess(sorted[0].name, sorted[j].name) {
              LexTransitive(sorted[0].name, sorted[j].name, x.name);
            }
          }
        }
      }
    }
  }

  lemma {:induction false} SortSorts(actors: seq<Actor>)
    ensures SortedByName(SortByName(actors))
  {
    if actors != [] {
      SortSorts(actors[1..]);
      InsertKeepsSorted(actors[0], SortByName(actors[1..]));
    }
  }

  lemma ConflictIsSymmetric(contracts: map<Name, Contract>, a: Actor, b: Actor)
    ensures ActorsConflict(contracts, a, b) <==> ActorsConflict(contracts, b, a)
  {
  }

  lemma ConsNoConflicts(contracts: map<Name, Contract>, x: Actor, rest: seq<Actor>)
    ensures NoConflicts(contracts, [x] + rest) <==>
      NoConflicts(contracts, rest) && forall a :: a in rest ==> !ActorsConflict(contracts, x, a)
  {
    var all := [x] + rest;
    if NoConflicts(contracts, all) {
      forall i, j | 0 <= i < j < |rest| ensures !ActorsConflict(contracts, rest[i], rest[j]) {
        assert all[i + 1] == rest[i] && all[j + 1] == rest[j];
      }
      forall a | a in rest ensures !ActorsConflict(contracts, x, a) {
        var i :| 0 <= i < |rest| && rest[i] == a;
        assert all[0] == x && all[i + 1] == a;
      }
    }
    if NoConflicts(contracts, rest) && forall a :: a in rest ==> !ActorsConflict(contracts, x, a) {
      forall i, j | 0 <= i < j < |all| ensures !ActorsConflict(contracts, all[i], all[j]) {
        assert all[j] == rest[j - 1] && (0 < i ==> all[i] == rest[i - 1]);
      }
    }
  }

  lemma {:induction false} InsertNoConflicts(contracts: map<Name, Contract>, x: Actor, sorted: seq<Actor>)
    ensures NoConflicts(contracts, InsertByName(x, sorted)) <==> NoConflicts(contracts, [x] + sorted)
  {
    ConsNoConflicts(contracts, x, sorted);
    if sorted != [] && LexLess(sorted[0].name, x.name) {
      InsertNoConflicts(contracts, x, sorted[1..]);
      ConsNoConflicts(contracts, x, sorted[1..]);
      ConsNoConflicts(contracts, sorted[0], sorted[1..]);
      ConsNoConflicts(contracts, sorted[0], InsertByName(x, sorted[1..]));
      ConflictIsSymmetric(contracts, x, sorted[0]);
      assert sorted == [sorted[0]] + sorted[1..];
    } else {
      assert sorted == [] ==> InsertByName(x, sorted) == [x] + sorted;
    }
  }

  /** Sorting neither makes nor hides a conflict. */
  lemma {:induction false} SortNoConflicts(contracts: map<Name, Contract>, actors: seq<Actor>)
    ensures NoConflicts(contracts, SortByName(actors)) <==> NoConflicts(contracts, actors)
  {
    if actors != [] {
      var rest := SortByName(actors[1..]);
      SortNoConflicts(contracts, actors[1..]);
      InsertNoConflicts(contracts, actors[0], rest);
      ConsNoConflicts(contracts, actors[0], rest);
      ConsNoConflicts(contracts, actors[0], actors[1..]);
      assert actors == [actors[0]] + actors[1..];
    }
  }

  ghost predicate AreFrames(contracts: map<Name, Contract>, actors: seq<Actor>, frames: seq<ActorFrame>) {
    |frames| == |actors| && forall i :: 0 <= i < |actors| ==> FrameOf(contracts, actors[i]) == Ok(frames[i])
  }

  ghost predicate IsFirstFrameError(contracts: map<Name, Contract>, actors: seq<Actor>, e: FrameError) {
    exists i :: 0 <= i < |actors| && FrameOf(contracts, actors[i]) == Err(e) && Framed(contracts, actors[..i])
  }

  method ExtractFrames(contracts: map<Name, Contract>, actors: seq<Actor>)
    returns (r: Result<seq<ActorFrame>, FrameError>)
    ensures r.Ok? <==> Framed(contracts, actors)
    ensures r.Ok? ==> AreFrames(contracts, actors, r.value)
    ensures r.Err? ==> IsFirstFrameError(contracts, actors, r.error)
  {
    var frames: seq<ActorFrame> := [];
    for i := 0 to |actors|
      invariant |frames| == i
      invariant forall j :: 0 <= j < i ==> FrameOf(contracts, actors[j]) == Ok(frames[j])
    {
      var frame := FrameOf(contracts, actors[i]);
      assert actors[i] in actors;
      if frame.Err? {
        return Err(frame.error);
      }
      frames := frames + [frame.value];
    }
    return Ok(frames);
  }

  /** The first pair, in name order, whose frames conflict. */
  ghost predicate IsFirstAmbiguity(frames: seq<ActorFrame>, e: FrameError) {
    exists i, j :: 0 <= i < j < |frames| && ConflictsWith(frames[i], frames[j])
      && e == Ambiguous(frames[i].actor, Lengths(frames[i]), frames[j].actor, Lengths(frames[j]))
      && (forall k, l :: 0 <= k < l < |frames| && (k < i || (k == i && l < j)) ==> !ConflictsWith(frames[k], frames[l]))
  }

  method FindAmbiguity(frames: seq<ActorFrame>) returns (e: Option<FrameError>)
    ensures e.None? ==> forall i, j :: 0 <= i < j < |frames| ==> !ConflictsWith(frames[i], frames[j])
    ensures e.Some? ==> IsFirstAmbiguity(frames, e.value)
  {
    for i := 0 to |frames|
      invariant forall k, l :: 0 <= k < l < |frames| && k < i ==> !ConflictsWith(frames[k], frames[l])
    {
      for j := i + 1 to |frames|
        invariant forall l :: i < l < j ==> !ConflictsWith(frames[i], frames[l])
      {
        if ConflictsWith(frames[i], frames[j]) {
          return Some(Ambiguous(frames[i].actor, Lengths(frames[i]), frames[j].actor, Lengths(frames[j])));
        }
      }
    }
    return None;
  }

  ghost predicate IsVerificationError(contracts: map<Name, Contract>, sorted: seq<Actor>, e: FrameError) {
    if Framed(contracts, sorted) then exists frames :: AreFrames(contracts, sorted, frames) && IsFirstAmbiguity(frames, e)
    else IsFirstFrameError(contracts, sorted, e)
  }

  /** Verify that no two actors' frames conflict. */
  method VerifyFrames(contracts: map<Name, Contract>, actors: seq<Actor>) returns (e: Option<FrameError>)
    ensures e.None? <==> Framed(contracts, actors) && NoConflicts(contracts, actors)
    ensures e.Some? ==> IsVerificationError(contracts, SortByName(actors), e.value)
  {
    var sorted := SortByName(actors);
    SortNoConflicts(contracts, actors);
    var frames := ExtractFrames(contracts, sorted);
    if frames.Err? {
      return Some(frames.error);
    }
    e := FindAmbiguity(frames.value);
    if e.Some? {
      var i, j :| 0 <= i < j < |frames.value| && ConflictsWith(frames.value[i], frames.value[j]);
      assert ActorsConflict(contracts, sorted[i], sorted[j]);
    } else {
      assert forall i, j :: 0 <= i < j < |sorted| ==> !ActorsConflict(contracts, sorted[i], sorted[j]);
    }
  }

  // ---------- Frames and the contracts' own bytes ----------

  /** The state bytes lie inside the bytecode, and their end is a machine word. */
  ghost predicate SpanFits(c: Contract) {
    c.offset + c.stateLen < 0x1_0000_0000_0000_0000 && c.offset + c.stateLen <= |c.bytecode|
  }

  /** The script is the contract's bytecode with some other state bytes in it. */
  ghost predicate IsInstance(c: Contract, script: seq<Byte>) {
    && |script| == |c.bytecode|
    && forall i :: 0 <= i < |script| && !(c.offset <= i < c.offset + c.stateLen) ==> script[i] == c.bytecode[i]
  }

  /** A frame exists exactly when the contract does and its span fits; otherwise the error says which. */
  lemma FramesExactly(contracts: map<Name, Contract>, a: Actor)
    ensures FrameOf(contracts, a).Ok? <==> a.contract in contracts && SpanFits(contracts[a.contract])
    ensures a.contract !in contracts ==> FrameOf(contracts, a) == Err(MissingContract(a.name, a.contract))
    ensures a.contract in contracts && !SpanFits(contracts[a.contract]) ==>
              var c := contracts[a.contract];
              FrameOf(contracts, a) == Err(InvalidStateSpan(a.name, a.contract, c.offset, c.stateLen, |c.bytecode|))
    ensures a.contract in contracts && SpanFits(contracts[a.contract]) ==>
              var c, f := contracts[a.contract], FrameOf(contracts, a).value;
              && f.actor == a.name && WellFormed(f)
              && Lengths(f) == FrameLengths(c.offset, c.stateLen, |c.bytecode| - (c.offset + c.stateLen), |c.bytecode|)
  {
  }

  /** The scripts of an actor's frame are its contract's bytecode around any state bytes. */
  lemma ScriptsAreInstances(contracts: map<Name, Contract>, a: Actor, script: seq<Byte>)
    requires a.contract in contracts && SpanFits(contracts[a.contract])
    ensures FrameOf(contracts, a).Ok?
    ensures IsScriptOf(FrameOf(contracts, a).value, script) <==> IsInstance(contracts[a.contract], script)
  {
    FramesExactly(contracts, a);
    var c, f := contracts[a.contract], FrameOf(contracts, a).value;
    var end := c.offset + c.stateLen;
    ScriptShape(f, script);
    if IsInstance(c, script) {
      assert script[..c.offset] == c.bytecode[..c.offset];
      assert script[end..] == c.bytecode[end..];
    }
    if IsScriptOf(f, script) {
      forall i | 0 <= i < |script| && !(c.offset <= i < end) ensures script[i] == c.bytecode[i] {
        assert i < c.offset ==> script[i] == f.prefix[i];
        assert end <= i ==> script[i] == script[end..][i - end] == f.suffix[i - end];
      }
    }
  }

  /** Acceptance means identity: no script is the bytecode of two actors' contracts around any state bytes. */
  lemma AcceptedScriptsHaveOneActor(contracts: map<Name, Contract>, actors: seq<Actor>, i: nat, j: nat,
                                    script: seq<Byte>)
    requires Framed(contracts, actors) && NoConflicts(contracts, actors)
    requires i < |actors| && j < |actors|
    requires actors[i].contract in contracts && IsInstance(contracts[actors[i].contract], script)
    requires actors[j].contract in contracts && IsInstance(contracts[actors[j].contract], script)
    ensures i == j
  {
    FramesExactly(contracts, actors[i]);
    FramesExactly(contracts, actors[j]);
    ScriptsAreInstances(contracts, actors[i], script);
    ScriptsAreInstances(contracts, actors[j], script);
    ConflictIfShared(contracts, actors[i], actors[j], script);
    ConflictIsSymmetric(contracts, actors[i], actors[j]);
  }

  lemma ConflictIfShared(contracts: map<Name, Contract>, a: Actor, b: Actor, script: seq<Byte>)
    requires FrameOf(contracts, a).Ok? && FrameOf(contracts, b).Ok?
    requires IsScriptOf(FrameOf(contracts, a).value, script) && IsScriptOf(FrameOf(contracts, b).value, script)
    ensures ActorsConflict(contracts, a, b)
  {
    FramesExactly(contracts, a);
    FramesExactly(contracts, b);
    CollidingFramesConflict(FrameOf(contracts, a).value, FrameOf(contracts, b).value);
  }
}
