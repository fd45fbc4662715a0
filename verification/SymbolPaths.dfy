/** Resolving a qualified name against the exposed names of a workspace. */
module SymbolPaths {
  import opened Wrappers
  import opened ModuleExports

  /** What one walk over the segments comes to; an app member continues as the resolution of another path. */
  datatype Outcome = Found(target: Target) | Nothing | Member(moduleKey: ModuleKey, actor: Segments)

  /** A path under resolution: where it starts, and its segments. */
  type Query = (ModuleKey, Segments)

  function NamesOf(exports: Exports, key: ModuleKey): Option<Names> {
    if key in exports then Some(exports[key]) else None
  }

  ghost predicate IsOnly(names: Names, name: string, t: Target) {
    name in names && names[name] == {t}
  }

  predicate IsActor(t: Target) {
    t.Declared? && t.declaration.kind.Actor?
  }

  // ---------- Meaning ----------

  /** The actors of an app whose last segment is the given name, in order. */
  function Named(actors: seq<Segments>, name: string): seq<Segments> {
    if actors == [] then []
    else
      var rest := Named(actors[1..], name);
      if actors[0][|actors[0]| - 1] == name then [actors[0]] + rest else rest
  }

  /** The only target of a name, if there is exactly one. */
  ghost function Only(names: Option<Names>, name: string): (r: Option<Target>)
    ensures r.Some? ==> names.Some? && IsOnly(names.value, name, r.value)
    ensures forall t :: names.Some? && IsOnly(names.value, name, t) ==> r == Some(t)
  {
    if names.Some? && exists t :: IsOnly(names.value, name, t) then
      assert forall t, u :: IsOnly(names.value, name, t) && IsOnly(names.value, name, u) ==> t == u by {
        forall t, u | IsOnly(names.value, name, t) && IsOnly(names.value, name, u) ensures t == u { assert t in {u}; }
      }
      var t :| IsOnly(names.value, name, t);
      Some(t)
    else None
  }

  /** One walk: every segment must name exactly one target, aliases lead on, an app leads to a member. */
  ghost function Walk(exports: Exports, names: Option<Names>, segments: Segments, index: nat): Outcome
    requires index < |segments|
    decreases |segments| - index
  {
    match Only(names, segments[index])
    case None => Nothing
    case Some(t) =>
      if index == |segments| - 1 then Found(t)
      else if t.Namespace? then Walk(exports, NamesOf(exports, t.moduleKey), segments, index + 1)
      else if t.declaration.kind.App? && index == |segments| - 2 then
        var actors := Named(t.declaration.kind.actors, segments[index + 1]);
        if |actors| == 1 then Member(t.declaration.moduleKey, actors[0]) else Nothing
      else Nothing
  }

  ghost function Step(exports: Exports, q: Query): Outcome {
    Walk(exports, NamesOf(exports, q.0), q.1, 0)
  }

  /** The resolution of a query within `n` walks, with nothing to stop it from going round in circles. */
  ghost function Resolves(exports: Exports, q: Query, n: nat): Option<Target>
    decreases n
  {
    if n == 0 then None
    else
      match Step(exports, q)
      case Found(t) => Some(t)
      case Nothing => None
      case Member(key, actor) =>
        var r := Resolves(exports, (key, actor), n - 1);
        if r.Some? && IsActor(r.value) then r else None
  }

  /** Some number of walks leads from the query to the target. */
  ghost predicate ResolvesTo(exports: Exports, q: Query, t: Target) {
    exists n: nat :: Resolves(exports, q, n) == Some(t)
  }

  // ---------- One walk ----------

  method FilterNamed(actors: seq<Segments>, name: string) returns (r: seq<Segments>)
    ensures r == Named(actors, name)
  {
    r := [];
    var j := |actors|;
    while j > 0
      invariant 0 <= j <= |actors|
      invariant r == Named(actors[j..], name)
    {
      j := j - 1;
      assert actors[j..][1..] == actors[j + 1..];
      if actors[j][|actors[j]| - 1] == name {
        r := [actors[j]] + r;
      }
    }
  }

  lemma SingletonIsOnly(names: Names, name: string, t: Target)
    requires name in names && t in names[name]
    ensures |names[name]| == 1 <==> IsOnly(names, name, t)
  {
    if |names[name]| == 1 {
      var rest := names[name] - {t};
      assert |rest| == 0;
      assert names[name] == {t} + rest;
    }
  }

  lemma NoneIsOnly(names: Names, name: string)
    requires name !in names || |names[name]| != 1
    ensures forall t :: !IsOnly(names, name, t)
  {
    forall t ensures !IsOnly(names, name, t) {
      assert |{t}| == 1;
    }
  }

  method OnlyTarget(names: Option<Names>, name: string) returns (r: Option<Target>)
    ensures r == Only(names, name)
  {
    if names.None? || name !in names.value {
      return None;
    }
    var targets := names.value[name];
    if |targets| != 1 {
      NoneIsOnly(names.value, name);
      return None;
    }
    var t :| t in targets;
    SingletonIsOnly(names.value, name, t);
    r := Some(t);
  }

  method WalkPath(exports: Exports, q: Query) returns (r: Outcome)
    ensures r == Step(exports, q)
  {
    var names, segments, index := NamesOf(exports, q.0), q.1, 0;
    while index < |segments|
      invariant 0 <= index <= |segments|
      invariant index < |segments| && Walk(exports, names, segments, index) == Step(exports, q)
      decreases |segments| - index
    {
      var target := OnlyTarget(names, segments[index]);
      if target.None? {
        return Nothing;
      }
      var t := target.value;
      if index == |segments| - 1 {
        return Found(t);
      }
      if t.Namespace? {
        names, index := NamesOf(exports, t.moduleKey), index + 1;
      } else if t.declaration.kind.App? && index == |segments| - 2 {
        var actors := FilterNamed(t.declaration.kind.actors, segments[index + 1]);
        return if |actors| == 1 then Member(t.declaration.moduleKey, actors[0]) else Nothing;
      } else {
        return Nothing;
      }
    }
    assert false;
  }

  // ---------- Following members ----------

  ghost predicate LeadsTo(exports: Exports, q: Query, next: Query) {
    Step(exports, q) == Member(next.0, next.1)
  }

  /** The queries a resolution has been through, each leading to the one after it and the last to `q`. */
  ghost predicate IsTrail(exports: Exports, trail: seq<Query>, q: Query) {
    forall j: nat {:trigger LeadsTo(exports, trail[j], After(trail, q, j))} ::
      j < |trail| ==> LeadsTo(exports, trail[j], After(trail, q, j))
  }

  ghost function After(trail: seq<Query>, q: Query, j: nat): Query {
    if j + 1 < |trail| then trail[j + 1] else q
  }

  lemma {:induction false} TrailUsesWalks(exports: Exports, trail: seq<Query>, q: Query, j: nat, n: nat)
    returns (fewer: nat)
    requires IsTrail(exports, trail, q) && j < |trail| && Resolves(exports, trail[j], n).Some?
    ensures fewer < n && Resolves(exports, q, fewer).Some?
    decreases |trail| - j
  {
    fewer := OneWalkLess(exports, trail[j], After(trail, q, j), n);
    if j + 1 < |trail| {
      fewer := TrailUsesWalks(exports, trail, q, j + 1, fewer);
    }
  }

  lemma OneWalkLess(exports: Exports, q: Query, next: Query, n: nat) returns (fewer: nat)
    requires LeadsTo(exports, q, next) && Resolves(exports, q, n).Some?
    ensures fewer < n && Resolves(exports, next, fewer).Some?
  {
    fewer := n - 1;
  }

  /** A query that comes round to itself never resolves, however many walks it is given. */
  lemma {:induction false} CircleNeverResolves(exports: Exports, trail: seq<Query>, q: Query, j: nat, n: nat)
    requires IsTrail(exports, trail, q) && j < |trail| && trail[j] == q
    ensures Resolves(exports, q, n) == None
    decreases n
  {
    if Resolves(exports, q, n).Some? {
      var fewer := TrailUsesWalks(exports, trail, q, j, n);
      CircleNeverResolves(exports, trail, q, j, fewer);
    }
  }

  // ---------- The texts queries are told apart by ----------

  function Join(segments: Segments): string {
    if |segments| == 1 then segments[0] else segments[0] + "::" + Join(segments[1..])
  }

  /** A query as one text. */
  function Text(q: Query): string {
    q.0 + ":" + Join(q.1)
  }

  predicate WellSpelledName(name: string) {
    name != "" && ':' !in name
  }

  predicate AreNames(segments: Segments) {
    forall i :: 0 <= i < |segments| ==> WellSpelledName(segments[i])
  }

  /** The module key does not end in a colon, and the segments are names. */
  predicate WellSpelled(q: Query) {
    (q.0 != "" ==> q.0[|q.0| - 1] != ':') && AreNames(q.1)
  }

  /** In joined names no colon stands at an end, and none stands alone. */
  lemma {:induction false} ColonsArePaired(segments: Segments, p: nat)
    requires AreNames(segments) && p < |Join(segments)|
    ensures Join(segments)[0] != ':' && Join(segments)[|Join(segments)| - 1] != ':'
    ensures Join(segments)[p] == ':' ==>
              0 < p < |Join(segments)| - 1 && (Join(segments)[p - 1] == ':' || Join(segments)[p + 1] == ':')
  {
    var first := segments[0];
    assert WellSpelledName(first);
    if |segments| > 1 {
      var rest := Join(segments[1..]);
      JoinIsLong(segments[1..]);
      ColonsArePaired(segments[1..], if p >= |first| + 2 then p - |first| - 2 else 0);
      assert Join(segments) == first + "::" + rest;
    }
  }

  lemma {:induction false} JoinIsLong(segments: Segments)
    requires AreNames(segments)
    ensures Join(segments) != ""
  {
    assert WellSpelledName(segments[0]);
  }

  /** The first of the names ends where the first colon of their text stands, or where the text ends. */
  lemma FirstNameReachesColon(segments: Segments, i: nat)
    requires AreNames(segments)
    ensures |segments[0]| <= |Join(segments)|
    ensures i < |Join(segments)| && Join(segments)[i] == ':' ==> |segments[0]| <= i
    ensures |segments[0]| < |Join(segments)| <==> |segments| > 1
    ensures |segments| > 1 ==> Join(segments)[|segments[0]|] == ':'
  {
    var first := segments[0];
    assert WellSpelledName(first);
    assert Join(segments)[..|first|] == first;
    assert i < |first| ==> first[i] == Join(segments)[i];
  }

  /** Names can be read back from the text they are joined to. */
  lemma {:induction false} JoinIsInjective(a: Segments, b: Segments)
    requires AreNames(a) && AreNames(b) && Join(a) == Join(b)
    ensures a == b
  {
    FirstNameReachesColon(a, |b[0]|);
    FirstNameReachesColon(b, |a[0]|);
    var text, n := Join(a), |a[0]|;
    assert a[0] == text[..n] == b[0];
    if |a| > 1 {
      assert Join(a[1..]) == text[n + 2..] == Join(b[1..]);
      JoinIsInjective(a[1..], b[1..]);
    }
    assert a == [a[0]] + a[1..] && b == [b[0]] + b[1..];
  }

  /** A longer key would have its separator, a colon that stands alone, inside the other query's joined names. */
  lemma KeysAreEquallyLong(a: Query, b: Query)
    requires WellSpelled(a) && WellSpelled(b) && Text(a) == Text(b)
    ensures |a.0| >= |b.0|
  {
    if |a.0| < |b.0| {
      var text, p := Text(a), |b.0| - |a.0| - 1;
      JoinIsLong(a.1);
      JoinIsLong(b.1);
      assert text[|b.0|] == ':' && text[|b.0| - 1] == b.0[|b.0| - 1];
      assert text[|b.0| + 1] == Join(b.1)[0];
      ColonsArePaired(b.1, 0);
      assert forall i :: 0 <= i < |Join(a.1)| ==> text[|a.0| + 1 + i] == Join(a.1)[i];
      ColonsArePaired(a.1, p);
    }
  }

  /** Well-spelled queries are told apart by their texts. */
  lemma TextIsInjective(a: Query, b: Query)
    requires WellSpelled(a) && WellSpelled(b) && Text(a) == Text(b)
    ensures a == b
  {
    KeysAreEquallyLong(a, b);
    KeysAreEquallyLong(b, a);
    assert a.0 == Text(a)[..|a.0|] == Text(b)[..|b.0|] == b.0;
    assert Join(a.1) == Text(a)[|a.0| + 1..] == Text(b)[|b.0| + 1..] == Join(b.1);
    JoinIsInjective(a.1, b.1);
  }

  // ---------- Termination: only the members of exposed apps are ever followed ----------

  ghost function AppMembers(exports: Exports): set<Query> {
    set key, name, t, j | key in exports && name in exports[key] && t in exports[key][name]
                          && t.Declared? && t.declaration.kind.App? && 0 <= j < |t.declaration.kind.actors|
      :: (t.declaration.moduleKey, t.declaration.kind.actors[j])
  }

  lemma {:induction false} NamedAreActors(actors: seq<Segments>, name: string)
    ensures forall a :: a in Named(actors, name) ==> a in actors
  {
    if actors != [] {
      NamedAreActors(actors[1..], name);
    }
  }

  lemma {:induction false} WalkStaysInMembers(exports: Exports, key: ModuleKey, segments: Segments, index: nat)
    requires index < |segments|
    ensures var r := Walk(exports, NamesOf(exports, key), segments, index);
      r.Member? ==> (r.moduleKey, r.actor) in AppMembers(exports)
    decreases |segments| - index
  {
    var names := NamesOf(exports, key);
    var only := Only(names, segments[index]);
    if only.Some? {
      var t := only.value;
      if index < |segments| - 1 {
        if t.Namespace? {
          WalkStaysInMembers(exports, t.moduleKey, segments, index + 1);
        } else if t.declaration.kind.App? && index == |segments| - 2 {
          MemberIsListed(exports, key, segments[index], t, segments[index + 1]);
        }
      }
    }
  }

  lemma MemberIsListed(exports: Exports, key: ModuleKey, name: string, t: Target, actor: string)
    requires key in exports && name in exports[key] && t in exports[key][name]
    requires t.Declared? && t.declaration.kind.App?
    ensures forall a :: a in Named(t.declaration.kind.actors, actor) ==> (t.declaration.moduleKey, a) in AppMembers(exports)
  {
    var actors := t.declaration.kind.actors;
    NamedAreActors(actors, actor);
    forall a | a in Named(actors, actor) ensures (t.declaration.moduleKey, a) in AppMembers(exports) {
      var j :| 0 <= j < |actors| && actors[j] == a;
    }
  }

  ghost function Texts(queries: set<Query>): set<string> {
    set q | q in queries :: Text(q)
  }

  lemma OneMoreSeen(universe: set<string>, seen: set<string>, text: string)
    requires text in universe && text !in seen
    ensures |universe - (seen + {text})| < |universe - seen|
  {
    assert universe - (seen + {text}) == (universe - seen) - {text};
  }

  // ---------- Resolution with a guard against repeated texts ----------

  /** The query a resolution comes to after `k` walks. */
  ghost function Visit(exports: Exports, q: Query, k: nat): Option<Query>
    decreases k
  {
    if k == 0 then Some(q)
    else
      match Step(exports, q)
      case Member(key, actor) => Visit(exports, (key, actor), k - 1)
      case _ => None
  }

  /** The first `n` queries a resolution comes to have texts not seen before and different from each other. */
  ghost predicate TextsAreNew(exports: Exports, q: Query, seen: set<string>, n: nat) {
    && (forall i: nat {:trigger Visit(exports, q, i)} ::
          i < n && Visit(exports, q, i).Some? ==> Text(Visit(exports, q, i).value) !in seen)
    && (forall i: nat, j: nat {:trigger Visit(exports, q, i), Visit(exports, q, j)} ::
          i < j < n && Visit(exports, q, i).Some? && Visit(exports, q, j).Some? ==>
            Text(Visit(exports, q, i).value) != Text(Visit(exports, q, j).value))
  }

  /** The query leads to the target in some number of walks, over queries with new texts. */
  ghost predicate ResolvesAnew(exports: Exports, q: Query, seen: set<string>, t: Target) {
    exists n: nat :: Resolves(exports, q, n) == Some(t) && TextsAreNew(exports, q, seen, n)
  }

  lemma NewTextsFollow(exports: Exports, q: Query, next: Query, seen: set<string>, n: nat)
    requires LeadsTo(exports, q, next)
    ensures TextsAreNew(exports, q, seen, n + 1) <==>
              Text(q) !in seen && TextsAreNew(exports, next, seen + {Text(q)}, n)
  {
    assert forall i: nat :: Visit(exports, q, i + 1) == Visit(exports, next, i);
    assert Visit(exports, q, 0) == Some(q);
    if Text(q) !in seen && TextsAreNew(exports, next, seen + {Text(q)}, n) {
      forall i: nat | i < n + 1 && Visit(exports, q, i).Some? ensures Text(Visit(exports, q, i).value) !in seen {
        assert i > 0 ==> Visit(exports, q, i) == Visit(exports, next, i - 1);
      }
      forall i: nat, j: nat | i < j < n + 1 && Visit(exports, q, i).Some? && Visit(exports, q, j).Some?
        ensures Text(Visit(exports, q, i).value) != Text(Visit(exports, q, j).value)
      {
        assert Visit(exports, q, j) == Visit(exports, next, j - 1);
        assert i > 0 ==> Visit(exports, q, i) == Visit(exports, next, i - 1);
      }
    }
    if TextsAreNew(exports, q, seen, n + 1) {
      forall i: nat | i < n && Visit(exports, next, i).Some?
        ensures Text(Visit(exports, next, i).value) !in seen + {Text(q)}
      {
        assert Visit(exports, q, i + 1) == Visit(exports, next, i);
      }
      forall i: nat, j: nat | i < j < n && Visit(exports, next, i).Some? && Visit(exports, next, j).Some?
        ensures Text(Visit(exports, next, i).value) != Text(Visit(exports, next, j).value)
      {
        assert Visit(exports, q, i + 1) == Visit(exports, next, i) && Visit(exports, q, j + 1) == Visit(exports, next, j);
      }
    }
  }

  /** A query with a text seen before does not resolve anew. */
  lemma SeenIsCut(exports: Exports, q: Query, seen: set<string>, t: Target)
    requires Text(q) in seen
    ensures !ResolvesAnew(exports, q, seen, t)
  {
    assert Visit(exports, q, 0) == Some(q);
  }

  /** A walk that ends settles its query. */
  lemma EndResolvesAnew(exports: Exports, q: Query, seen: set<string>, t: Target)
    requires Text(q) !in seen && !Step(exports, q).Member?
    ensures ResolvesAnew(exports, q, seen, t) <==> Step(exports, q) == Found(t)
  {
    if Step(exports, q) == Found(t) {
      assert Resolves(exports, q, 1) == Some(t) && TextsAreNew(exports, q, seen, 1);
    }
  }

  /** A walk that leads on passes the question on, with its own text now among those seen. */
  lemma MemberResolvesAnew(exports: Exports, q: Query, next: Query, seen: set<string>, t: Target)
    requires Text(q) !in seen && LeadsTo(exports, q, next)
    ensures ResolvesAnew(exports, q, seen, t) <==> IsActor(t) && ResolvesAnew(exports, next, seen + {Text(q)}, t)
  {
    if n: nat :| Resolves(exports, q, n) == Some(t) && TextsAreNew(exports, q, seen, n) {
      NewTextsFollow(exports, q, next, seen, n - 1);
      assert Resolves(exports, next, n - 1) == Some(t);
    }
    if n: nat :| IsActor(t) && Resolves(exports, next, n) == Some(t)
                 && TextsAreNew(exports, next, seen + {Text(q)}, n) {
      NewTextsFollow(exports, q, next, seen, n);
      assert Resolves(exports, q, n + 1) == Some(t);
    }
  }

  /** Resolves a query given the texts of those already under resolution. */
  method ResolveFrom(exports: Exports, q: Query, seen: set<string>, ghost universe: set<string>)
    returns (r: Option<Target>)
    requires Text(q) in universe && Texts(AppMembers(exports)) <= universe
    ensures forall t :: r == Some(t) <==> ResolvesAnew(exports, q, seen, t)
    decreases |universe - seen|
  {
    if Text(q) in seen {
      forall t ensures !ResolvesAnew(exports, q, seen, t) { SeenIsCut(exports, q, seen, t); }
      return None;
    }
    var outcome := WalkPath(exports, q);
    match outcome {
      case Nothing =>
        forall t ensures !ResolvesAnew(exports, q, seen, t) { EndResolvesAnew(exports, q, seen, t); }
        return None;
      case Found(found) =>
        forall t ensures ResolvesAnew(exports, q, seen, t) <==> t == found { EndResolvesAnew(exports, q, seen, t); }
        return Some(found);
      case Member(key, actor) =>
        WalkStaysInMembers(exports, q.0, q.1, 0);
        assert Text((key, actor)) in Texts(AppMembers(exports));
        OneMoreSeen(universe, seen, Text(q));
        var member := ResolveFrom(exports, (key, actor), seen + {Text(q)}, universe);
        forall t ensures ResolvesAnew(exports, q, seen, t) <==> IsActor(t) && member == Some(t) {
          MemberResolvesAnew(exports, q, (key, actor), seen, t);
        }
        r := if member.Some? && IsActor(member.value) then member else None;
    }
  }

  ghost predicate AllWellSpelled(exports: Exports, q: Query) {
    WellSpelled(q) && forall m :: m in AppMembers(exports) ==> WellSpelled(m)
  }

  /** Resolution terminates. It finds a target exactly when the unguarded resolution would and the queries on the way
      have different texts; with well-spelled names it finds every target the unguarded resolution would. */
  method ResolveSymbolPath(exports: Exports, moduleKey: ModuleKey, segments: Segments) returns (r: Option<Target>)
    ensures forall t :: r == Some(t) <==> ResolvesAnew(exports, (moduleKey, segments), {}, t)
    ensures AllWellSpelled(exports, (moduleKey, segments)) ==>
              forall t :: r == Some(t) <==> ResolvesTo(exports, (moduleKey, segments), t)
  {
    var q: Query := (moduleKey, segments);
    r := ResolveFrom(exports, q, {}, Texts(AppMembers(exports)) + {Text(q)});
    if AllWellSpelled(exports, q) {
      forall t ensures ResolvesAnew(exports, q, {}, t) <==> ResolvesTo(exports, q, t) {
        WellSpelledResolveAnew(exports, q, t);
      }
    }
  }

  // ---------- The guard loses nothing when names are well spelled ----------

  lemma {:induction false} VisitStep(exports: Exports, q: Query, k: nat)
    requires Visit(exports, q, k + 1).Some?
    ensures Visit(exports, q, k).Some?
    ensures LeadsTo(exports, Visit(exports, q, k).value, Visit(exports, q, k + 1).value)
    decreases k
  {
    if k > 0 {
      VisitStep(exports, (Step(exports, q).moduleKey, Step(exports, q).actor), k - 1);
    }
  }

  lemma {:induction false} EarlierVisit(exports: Exports, q: Query, i: nat, j: nat)
    requires i <= j && Visit(exports, q, j).Some?
    ensures Visit(exports, q, i).Some?
    decreases j - i
  {
    if i < j {
      VisitStep(exports, q, j - 1);
      EarlierVisit(exports, q, i, j - 1);
    }
  }

  lemma VisitIsWellSpelled(exports: Exports, q: Query, k: nat)
    requires AllWellSpelled(exports, q) && Visit(exports, q, k).Some?
    ensures WellSpelled(Visit(exports, q, k).value)
  {
    if k > 0 {
      VisitStep(exports, q, k - 1);
      var before := Visit(exports, q, k - 1).value;
      WalkStaysInMembers(exports, before.0, before.1, 0);
    }
  }

  /** A resolution that succeeds comes to no query twice. */
  lemma VisitsDiffer(exports: Exports, q: Query, n: nat, i: nat, j: nat)
    requires Resolves(exports, q, n).Some? && i < j && Visit(exports, q, i).Some? && Visit(exports, q, j).Some?
    ensures Visit(exports, q, i) != Visit(exports, q, j)
  {
    forall k: nat | k < j ensures Visit(exports, q, k).Some? { EarlierVisit(exports, q, k, j); }
    var trail := seq(j, k requires 0 <= k < j => Visit(exports, q, k).value);
    var last := Visit(exports, q, j).value;
    forall k: nat | k < |trail| ensures LeadsTo(exports, trail[k], After(trail, last, k)) {
      EarlierVisit(exports, q, k + 1, j);
      VisitStep(exports, q, k);
    }
    assert trail[0] == q;
    var fewer := TrailUsesWalks(exports, trail, last, 0, n);
    if trail[i] == last {
      CircleNeverResolves(exports, trail, last, i, fewer);
    }
  }

  lemma WellSpelledResolveAnew(exports: Exports, q: Query, t: Target)
    requires AllWellSpelled(exports, q)
    ensures ResolvesAnew(exports, q, {}, t) <==> ResolvesTo(exports, q, t)
  {
    if n: nat :| Resolves(exports, q, n) == Some(t) {
      forall i: nat, j: nat | i < j < n && Visit(exports, q, i).Some? && Visit(exports, q, j).Some?
        ensures Text(Visit(exports, q, i).value) != Text(Visit(exports, q, j).value)
      {
        var a, b := Visit(exports, q, i).value, Visit(exports, q, j).value;
        VisitIsWellSpelled(exports, q, i);
        VisitIsWellSpelled(exports, q, j);
        VisitsDiffer(exports, q, n, i, j);
        if Text(a) == Text(b) { TextIsInjective(a, b); }
      }
      assert TextsAreNew(exports, q, {}, n);
    }
  }

  /** Spelling matters: with a module key that ends in a colon, two queries on the way to a target have one text, and
      the guard cuts off a resolution that would succeed. */
  lemma BadSpellingIsCut(exports: Exports, app: Target, actor: Target)
    requires app == Declared((1, 0), Declaration(App([["b"]]), "a", "m:a:"))
    requires actor == Declared((1, 1), Declaration(Kind.Actor, "b", "m:a:"))
    requires exports == map["m" := map["a" := {app}, "b" := {actor}], "m:a:" := map["a" := {app}, "b" := {actor}]]
    ensures ResolvesTo(exports, ("m", ["a", "b"]), actor)
    ensures !ResolvesAnew(exports, ("m", ["a", "b"]), {}, actor)
  {
    var names: Names := map["a" := {app}, "b" := {actor}];
    var q: Query := ("m", ["a", "b"]);
    var next: Query := ("m:a:", ["b"]);
    assert IsOnly(names, "a", app) && IsOnly(names, "b", actor);
    assert Named([["b"]], "b") == [["b"]];
    assert Step(exports, next) == Found(actor);
    assert LeadsTo(exports, q, next);
    assert Resolves(exports, next, 1) == Some(actor);
    assert Resolves(exports, q, 2) == Some(actor);
    assert Join(["a", "b"][1..]) == "b" && Join(["a", "b"]) == "a::b" && Join(["b"]) == "b";
    assert Text(q) == "m:a::b" == Text(next);
    forall n: nat | Resolves(exports, q, n) == Some(actor) ensures !TextsAreNew(exports, q, {}, n) {
      assert Visit(exports, q, 0) == Some(q) && Visit(exports, q, 1) == Some(next);
      assert n > 1;
    }
  }

  // ---------- Laws of qualified names ----------

  lemma {:induction false} WalkShifts(exports: Exports, names: Option<Names>, name: string, rest: Segments, index: nat)
    requires index < |rest|
    ensures Walk(exports, names, [name] + rest, index + 1) == Walk(exports, names, rest, index)
    decreases |rest| - index
  {
    var all: Segments := [name] + rest;
    assert all[index + 1] == rest[index];
    var only := Only(names, rest[index]);
    if only.Some? && index < |rest| - 1 {
      assert all[index + 2] == rest[index + 1];
      if only.value.Namespace? {
        WalkShifts(exports, NamesOf(exports, only.value.moduleKey), name, rest, index + 1);
      }
    }
  }

  lemma SameStepSameTargets(exports: Exports, q: Query, r: Query, t: Target)
    requires Step(exports, q) == Step(exports, r)
    ensures ResolvesTo(exports, q, t) <==> ResolvesTo(exports, r, t)
  {
    forall n: nat ensures Resolves(exports, q, n) == Resolves(exports, r, n) {
    }
  }

  /** An alias leads to its module: what follows it is resolved there, and nowhere else. */
  lemma AliasLeadsToModule(exports: Exports, m: ModuleKey, name: string, rest: Segments, alias: Target, t: Target)
    requires m in exports && name in exports[m] && exports[m][name] == {alias} && alias.Namespace?
    ensures ResolvesTo(exports, (m, [name] + rest), t) <==> ResolvesTo(exports, (alias.moduleKey, rest), t)
  {
    var all: Segments := [name] + rest;
    assert all[0] == name && IsOnly(exports[m], name, alias);
    WalkShifts(exports, NamesOf(exports, alias.moduleKey), name, rest, 0);
    SameStepSameTargets(exports, (m, all), (alias.moduleKey, rest), t);
  }

  /** Actor `j` is the only one of the list whose last segment is the name. */
  ghost predicate OnlyEnding(actors: seq<Segments>, name: string, j: nat) {
    && j < |actors| && actors[j][|actors[j]| - 1] == name
    && forall i :: 0 <= i < |actors| && actors[i][|actors[i]| - 1] == name ==> i == j
  }

  lemma {:induction false} NamedOnce(actors: seq<Segments>, name: string)
    ensures Named(actors, name) == [] <==> forall i :: 0 <= i < |actors| ==> actors[i][|actors[i]| - 1] != name
    ensures |Named(actors, name)| == 1 <==> exists j: nat :: OnlyEnding(actors, name, j)
    ensures forall j: nat :: OnlyEnding(actors, name, j) ==> Named(actors, name) == [actors[j]]
  {
    if actors != [] {
      var rest := actors[1..];
      NamedOnce(rest, name);
      forall j: nat ensures OnlyEnding(actors, name, j + 1) <==>
          OnlyEnding(rest, name, j) && actors[0][|actors[0]| - 1] != name
      {
        if OnlyEnding(actors, name, j + 1) {
          assert forall i :: 0 <= i < |rest| ==> rest[i] == actors[i + 1];
        }
        if OnlyEnding(rest, name, j) {
          assert forall i :: 0 < i < |actors| ==> actors[i] == rest[i - 1];
        }
      }
      assert OnlyEnding(actors, name, 0) <==>
          actors[0][|actors[0]| - 1] == name && forall i :: 0 <= i < |rest| ==> rest[i][|rest[i]| - 1] != name by {
        assert forall i :: 0 <= i < |rest| ==> rest[i] == actors[i + 1];
      }
      forall j: nat | OnlyEnding(actors, name, j) ensures Named(actors, name) == [actors[j]] {
        if j > 0 {
          assert OnlyEnding(actors, name, (j - 1) + 1);
          assert rest[j - 1] == actors[j];
        }
      }
      if |Named(actors, name)| == 1 && actors[0][|actors[0]| - 1] != name {
        var j: nat :| OnlyEnding(rest, name, j);
        assert OnlyEnding(actors, name, j + 1);
      }
    }
  }

  /** An app leads to its actors: its name and one more resolve to the actor that alone ends in that name, as the path of
      this actor resolves in the app's module, and to nothing but actors. */
  lemma AppLeadsToActor(exports: Exports, m: ModuleKey, name: string, x: string, app: Target, t: Target)
    requires m in exports && name in exports[m] && exports[m][name] == {app}
    requires app.Declared? && app.declaration.kind.App?
    ensures ResolvesTo(exports, (m, [name, x]), t) <==>
              && t.Declared? && t.declaration.kind.Actor?
              && exists j: nat :: OnlyEnding(app.declaration.kind.actors, x, j)
                   && ResolvesTo(exports, (app.declaration.moduleKey, app.declaration.kind.actors[j]), t)
  {
    var q: Query := (m, [name, x]);
    var actors, key := app.declaration.kind.actors, app.declaration.moduleKey;
    assert q.1[0] == name && q.1[1] == x && IsOnly(exports[m], name, app);
    NamedOnce(actors, x);
    if j: nat :| OnlyEnding(actors, x, j) {
      assert LeadsTo(exports, q, (key, actors[j]));
      MemberResolves(exports, q, (key, actors[j]), t);
    } else {
      assert Step(exports, q) == Nothing;
      NothingResolves(exports, q, t);
    }
  }

  lemma MemberResolves(exports: Exports, q: Query, next: Query, t: Target)
    requires LeadsTo(exports, q, next)
    ensures ResolvesTo(exports, q, t) <==> IsActor(t) && ResolvesTo(exports, next, t)
  {
    if n: nat :| Resolves(exports, q, n) == Some(t) {
      assert Resolves(exports, next, n - 1) == Some(t);
    }
    if n: nat :| IsActor(t) && Resolves(exports, next, n) == Some(t) {
      assert Resolves(exports, q, n + 1) == Some(t);
    }
  }

  lemma NothingResolves(exports: Exports, q: Query, t: Target)
    requires Step(exports, q) == Nothing
    ensures !ResolvesTo(exports, q, t)
  {
  }

  /** A first name with no target or several leads nowhere, and neither does one that stands for anything but an alias or
      an app when more follows, nor an app when more than one name follows. */
  lemma OtherNamesLeadNowhere(exports: Exports, m: ModuleKey, name: string, rest: seq<string>, t: Target)
    requires m !in exports || name !in exports[m] || |exports[m][name]| != 1
             || exists d: Target :: exports[m][name] == {d} && d.Declared? && rest != []
                                    && (d.declaration.kind.App? ==> |rest| != 1)
    ensures !ResolvesTo(exports, (m, [name] + rest), t)
  {
    var q: Query := (m, [name] + rest);
    assert q.1[0] == name;
    if m in exports && name in exports[m] && |exports[m][name]| == 1 {
      var d: Target :| exports[m][name] == {d} && d.Declared?;
      assert IsOnly(exports[m], name, d);
    } else if m in exports {
      NoneIsOnly(exports[m], name);
    }
    assert Step(exports, q) == Nothing;
    NothingResolves(exports, q, t);
  }

  // ---------- Plain names ----------

  lemma PlainStep(exports: Exports, key: ModuleKey, name: string, t: Target)
    ensures ResolvesTo(exports, (key, [name]), t) <==> key in exports && IsOnly(exports[key], name, t)
  {
    var q: Query := (key, [name]);
    assert q.1[0] == name;
    assert Step(exports, q) == match Only(NamesOf(exports, key), name) case Some(u) => Found(u) case None => Nothing;
    assert Step(exports, q) == Found(t) ==> Resolves(exports, q, 1) == Some(t);
  }

  lemma ExposedAlone(exports: Exports, key: ModuleKey, name: string, t: Target)
    ensures key in exports && IsOnly(exports[key], name, t) <==> forall u :: Exposes(exports, key, name, u) <==> u == t
  {
    if forall u :: Exposes(exports, key, name, u) <==> u == t {
      assert Exposes(exports, key, name, t);
      forall u ensures u in exports[key][name] <==> u == t {
        assert Exposes(exports, key, name, u) <==> u in exports[key][name];
      }
    }
  }

  /** A plain name resolves exactly when one single target reaches the module along its open imports; collisions are never guessed. */
  lemma PlainNamesAreUnambiguous(modules: seq<Module>, exports: Exports, key: ModuleKey, name: string, t: Target)
    requires forall k :: k in exports <==> HasKey(modules, k)
    requires forall k, n, u :: Exposes(exports, k, n, u) <==> HasKey(modules, k) && Reexports(modules, k, n, u)
    ensures ResolvesTo(exports, (key, [name]), t) <==>
              HasKey(modules, key) && forall u :: Reexports(modules, key, name, u) <==> u == t
  {
    PlainStep(exports, key, name, t);
    ExposedAlone(exports, key, name, t);
  }
}
