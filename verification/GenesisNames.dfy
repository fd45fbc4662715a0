/** The names callers give to groups of genesis outputs, and the order the groups are kept in. */
module GenesisNames {
  import opened Wrappers
  import opened Ordering

  type u16 = x: nat | x < 0x1_0000

  datatype GroupName = Launch(name: string) | Spawn(name: string)

  /** A group: the input that authorizes it, and its name. */
  datatype GroupKey = GroupKey(authorizingInput: u16, name: GroupName)

  predicate SeparatorAt(text: string, i: nat) {
    i + 1 < |text| && text[i] == ':' && text[i + 1] == ':'
  }

  ghost predicate HasSeparator(text: string) {
    exists i: nat :: SeparatorAt(text, i)
  }

  /** The position of the first `::` at or after `from`. */
  function FindSeparator(text: string, from: nat): (r: Option<nat>)
    ensures r.Some? ==> from <= r.value && SeparatorAt(text, r.value)
    ensures r.Some? ==> forall i: nat :: from <= i < r.value ==> !SeparatorAt(text, i)
    ensures r.None? ==> forall i: nat :: from <= i ==> !SeparatorAt(text, i)
    decreases |text| - from
  {
    if from + 1 >= |text| then None
    else if SeparatorAt(text, from) then Some(from)
    else FindSeparator(text, from + 1)
  }

  function Parse(path: string): Result<GroupName, string> {
    match FindSeparator(path, 0)
    case None => Err(path)
    case Some(i) =>
      var space, name := path[..i], path[i + 2..];
      if name == "" || FindSeparator(name, 0).Some? then Err(path)
      else if space == "launch" then Ok(Launch(name))
      else if space == "spawn" then Ok(Spawn(name))
      else Err(path)
  }

  function Path(n: GroupName): string {
    match n
    case Launch(name) => "launch::" + name
    case Spawn(name) => "spawn::" + name
  }

  ghost predicate WellNamed(n: GroupName) {
    n.name != "" && !HasSeparator(n.name)
  }

  lemma FirstSeparatorOfPath(n: GroupName, space: string)
    requires space == if n.Launch? then "launch" else "spawn"
    ensures Path(n) == space + "::" + n.name
    ensures FindSeparator(Path(n), 0) == Some(|space|)
    ensures Path(n)[..|space|] == space && Path(n)[|space| + 2..] == n.name
  {
    var path := Path(n);
    assert path == space + "::" + n.name;
    assert SeparatorAt(path, |space|);
    forall i: nat | i < |space| ensures !SeparatorAt(path, i) {
      assert path[i] == space[i] && space[i] != ':';
    }
  }

  lemma PathReadsBack(n: GroupName)
    requires WellNamed(n)
    ensures Parse(Path(n)) == Ok(n)
  {
    FirstSeparatorOfPath(n, if n.Launch? then "launch" else "spawn");
    assert FindSeparator(n.name, 0).None?;
  }

  lemma SplitAround(path: string, i: nat)
    requires SeparatorAt(path, i)
    ensures path == path[..i] + "::" + path[i + 2..]
  {
    assert path[i..i + 2] == "::";
    assert path == path[..i] + path[i..i + 2] + path[i + 2..];
  }

  lemma ReadPathIsWritten(path: string, n: GroupName)
    requires Parse(path) == Ok(n)
    ensures path == Path(n) && WellNamed(n)
  {
    var i := FindSeparator(path, 0).value;
    SplitAround(path, i);
    var name := path[i + 2..];
    if n.Launch? {
      assert path[..i] == "launch" && n == Launch(name);
      assert path == "launch" + "::" + name == "launch::" + name;
    } else {
      assert path[..i] == "spawn" && n == Spawn(name);
      assert path == "spawn" + "::" + name == "spawn::" + name;
    }
  }

  /** Reading and writing group paths are inverse: what is read back is what was written, and nothing else is readable. */
  lemma ParseInvertsPath(path: string, n: GroupName)
    ensures Parse(path) == Ok(n) <==> path == Path(n) && WellNamed(n)
  {
    if path == Path(n) && WellNamed(n) {
      PathReadsBack(n);
    }
    if Parse(path) == Ok(n) {
      ReadPathIsWritten(path, n);
    }
  }

  /** Distinct names have distinct paths, whether or not they can be read back. */
  lemma PathIsInjective(a: GroupName, b: GroupName)
    requires Path(a) == Path(b)
    ensures a == b
  {
    assert Path(a)[0] == Path(b)[0];
    var skip := if a.Launch? then 8 else 7;
    assert a.name == Path(a)[skip..] == Path(b)[skip..] == b.name;
  }

  /** Readable paths that name the same group are the same text. */
  lemma ParseIsInjective(a: string, b: string)
    requires Parse(a).Ok? && Parse(a) == Parse(b)
    ensures a == b
  {
    ParseInvertsPath(a, Parse(a).value);
    ParseInvertsPath(b, Parse(b).value);
  }

  // ---------- The order of groups ----------

  function Codes(text: string): seq<nat> {
    seq(|text|, i requires 0 <= i < |text| => text[i] as nat)
  }

  /** The derived order of keys: input first, then launches before spawns, then the name. */
  function Rank(key: GroupKey): Name {
    [key.authorizingInput, if key.name.Launch? then 0 else 1] + Codes(key.name.name)
  }

  lemma RankIsInjective(a: GroupKey, b: GroupKey)
    requires Rank(a) == Rank(b)
    ensures a == b
  {
    var s, t := a.name.name, b.name.name;
    assert Rank(a)[0] == Rank(b)[0] && Rank(a)[1] == Rank(b)[1];
    assert Codes(s) == Rank(a)[2..] == Rank(b)[2..] == Codes(t);
    assert |s| == |Codes(s)| == |Codes(t)| == |t|;
    forall i | 0 <= i < |s| ensures s[i] == t[i] {
      assert Codes(s)[i] == Codes(t)[i];
    }
    assert s == t;
  }

  /** Keys are ordered by input; for one input launches come before spawns, and names of one kind in their own order. */
  lemma KeysAreOrdered(a: GroupKey, b: GroupKey)
    ensures LexLess(Rank(a), Rank(b)) <==>
              || a.authorizingInput < b.authorizingInput
              || (a.authorizingInput == b.authorizingInput
                  && ((a.name.Launch? && b.name.Spawn?)
                      || (a.name.Launch? == b.name.Launch? && LexLess(Codes(a.name.name), Codes(b.name.name)))))
  {
    var x, y := Rank(a), Rank(b);
    assert x[1..][0] == x[1] && y[1..][0] == y[1];
    assert x[1..][1..] == Codes(a.name.name) && y[1..][1..] == Codes(b.name.name);
  }

  /** The least key, the next one an ordered map yields. */
  method NextKey(keys: set<GroupKey>) returns (key: GroupKey)
    requires keys != {}
    ensures key in keys
    ensures forall k :: k in keys && k != key ==> LexLess(Rank(key), Rank(k))
  {
    var ranks := set k | k in keys :: Rank(k);
    var some :| some in keys;
    assert Rank(some) in ranks;
    var first := First(Lexicographic, ranks);
    key :| key in keys && Rank(key) == first;
    forall k | k in keys && k != key ensures LexLess(Rank(key), Rank(k)) {
      assert Rank(k) in ranks;
      if Rank(k) == Rank(key) { RankIsInjective(k, key); }
      assert Before(Lexicographic, first, Rank(k));
    }
  }
}
