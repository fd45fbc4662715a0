/** The names each module of an editor workspace exposes, as the fixpoint of its open imports. */
module ModuleExports {
  import opened Wrappers

  type ModuleKey = string

  /** A qualified name, split at its separators; splitting never yields nothing. */
  type Segments = s: seq<string> | s != [] witness [""]

  datatype Kind = State | Actor | ActorEnum | Function | Constant | App(actors: seq<Segments>)

  datatype Declaration = Declaration(kind: Kind, name: string, moduleKey: ModuleKey)

  /** An import; its target is missing when the path leads nowhere. */
  datatype Import = Import(alias: Option<string>, target: Option<ModuleKey>)

  datatype Module = Module(key: ModuleKey, declarations: seq<Declaration>, imports: seq<Import>)

  /** What a name stands for. Targets are told apart by where they were written: module and position. */
  datatype Target =
    | Declared(place: (nat, nat), declaration: Declaration)
    | Namespace(place: (nat, nat), name: string, moduleKey: ModuleKey)

  type Names = map<string, set<Target>>

  type Exports = map<ModuleKey, Names>

  ghost predicate InNames(names: Names, name: string, t: Target) {
    name in names && t in names[name]
  }

  ghost predicate Exposes(exports: Exports, key: ModuleKey, name: string, t: Target) {
    key in exports && InNames(exports[key], name, t)
  }

  // ---------- What a module exposes, by definition ----------

  predicate HasKey(modules: seq<Module>, key: ModuleKey) {
    exists i :: 0 <= i < |modules| && modules[i].key == key
  }

  ghost predicate IsDeclaredAt(m: Module, i: nat, d: nat, name: string, t: Target) {
    d < |m.declarations| && name == m.declarations[d].name && t == Declared((i, d), m.declarations[d])
  }

  ghost predicate IsAliasedAt(modules: seq<Module>, m: Module, i: nat, k: nat, name: string, t: Target) {
    && k < |m.imports|
    && m.imports[k].alias == Some(name)
    && m.imports[k].target.Some? && HasKey(modules, m.imports[k].target.value)
    && t == Namespace((i, k), name, m.imports[k].target.value)
  }

  ghost predicate DeclaresUpTo(m: Module, i: nat, n: nat, name: string, t: Target) {
    exists d: nat :: d < n && IsDeclaredAt(m, i, d, name, t)
  }

  ghost predicate AliasesUpTo(modules: seq<Module>, m: Module, i: nat, n: nat, name: string, t: Target) {
    exists k: nat :: k < n && IsAliasedAt(modules, m, i, k, name, t)
  }

  /** Entry `i` of the workspace itself declares or aliases the name. */
  ghost predicate Introduces(modules: seq<Module>, i: nat, name: string, t: Target) {
    && i < |modules|
    && (DeclaresUpTo(modules[i], i, |modules[i].declarations|, name, t)
        || AliasesUpTo(modules, modules[i], i, |modules[i].imports|, name, t))
  }

  ghost predicate OwnsAt(modules: seq<Module>, i: nat, key: ModuleKey, name: string, t: Target) {
    i < |modules| && modules[i].key == key && Introduces(modules, i, name, t)
  }

  ghost predicate OwnsUpTo(modules: seq<Module>, n: nat, key: ModuleKey, name: string, t: Target) {
    exists i: nat :: i < n && OwnsAt(modules, i, key, name, t)
  }

  ghost predicate Owns(modules: seq<Module>, key: ModuleKey, name: string, t: Target) {
    OwnsUpTo(modules, |modules|, key, name, t)
  }

  ghost predicate IsOpenImport(modules: seq<Module>, i: nat, k: nat, a: ModuleKey, b: ModuleKey) {
    && i < |modules| && modules[i].key == a
    && k < |modules[i].imports| && modules[i].imports[k] == Import(None, Some(b))
  }

  /** Some module entry under key `a` imports `b` without an alias. */
  ghost predicate Opens(modules: seq<Module>, a: ModuleKey, b: ModuleKey) {
    exists i: nat, k: nat :: IsOpenImport(modules, i, k, a, b)
  }

  ghost predicate IsChain(modules: seq<Module>, chain: seq<ModuleKey>, a: ModuleKey, b: ModuleKey) {
    && chain != [] && chain[0] == a && chain[|chain| - 1] == b
    && forall j :: 0 <= j < |chain| - 1 ==> Opens(modules, chain[j], chain[j + 1])
  }

  /** The module at the end of some chain of open imports, possibly of no import, owns the name. */
  ghost predicate Reexports(modules: seq<Module>, key: ModuleKey, name: string, t: Target) {
    exists chain: seq<ModuleKey>, last: ModuleKey :: IsChain(modules, chain, key, last) && Owns(modules, last, name, t)
  }

  lemma OwnIsExported(modules: seq<Module>, key: ModuleKey, name: string, t: Target)
    requires Owns(modules, key, name, t)
    ensures Reexports(modules, key, name, t)
  {
    assert IsChain(modules, [key], key, key);
  }

  lemma OpenedIsExported(modules: seq<Module>, a: ModuleKey, b: ModuleKey, name: string, t: Target)
    requires Opens(modules, a, b) && Reexports(modules, b, name, t)
    ensures Reexports(modules, a, name, t)
  {
    var chain, last :| IsChain(modules, chain, b, last) && Owns(modules, last, name, t);
    assert IsChain(modules, [a] + chain, a, last);
  }

  /** Everything owned is exposed, and open imports pass everything on. */
  ghost predicate IsClosed(modules: seq<Module>, exports: Exports) {
    && (forall key, name, t :: Owns(modules, key, name, t) ==> Exposes(exports, key, name, t))
    && (forall a, b, name, t :: Opens(modules, a, b) && Exposes(exports, b, name, t) ==> Exposes(exports, a, name, t))
  }

  lemma {:induction false} ClosedAlongChain(modules: seq<Module>, exports: Exports, chain: seq<ModuleKey>,
                                            a: ModuleKey, b: ModuleKey,
                                            name: string, t: Target)
    requires IsClosed(modules, exports) && IsChain(modules, chain, a, b) && Exposes(exports, b, name, t)
    ensures Exposes(exports, a, name, t)
    decreases |chain|
  {
    if |chain| > 1 {
      assert Opens(modules, chain[0], chain[1]);
      assert IsChain(modules, chain[1..], chain[1], b) by {
        forall j | 0 <= j < |chain| - 2 ensures Opens(modules, chain[1..][j], chain[1..][j + 1]) {
          assert Opens(modules, chain[j + 1], chain[j + 2]);
        }
      }
      ClosedAlongChain(modules, exports, chain[1..], chain[1], b, name, t);
    }
  }

  /** The re-exported names are the least closed table: they lie in every closed one. */
  lemma ReexportsAreLeast(modules: seq<Module>, exports: Exports, key: ModuleKey, name: string, t: Target)
    requires IsClosed(modules, exports) && Reexports(modules, key, name, t)
    ensures Exposes(exports, key, name, t)
  {
    var chain, last :| IsChain(modules, chain, key, last) && Owns(modules, last, name, t);
    ClosedAlongChain(modules, exports, chain, key, last, name, t);
  }

  /** The target is what stands at its place in the workspace: a declaration of the name, or an aliased import of it whose
      module is there. */
  ghost predicate IsWritten(modules: seq<Module>, name: string, t: Target) {
    && t.place.0 < |modules|
    && var m, n := modules[t.place.0], t.place.1;
      match t
      case Declared(_, declaration) =>
        n < |m.declarations| && m.declarations[n] == declaration && declaration.name == name
      case Namespace(_, alias, key) =>
        n < |m.imports| && m.imports[n] == Import(Some(name), Some(key)) && alias == name && HasKey(modules, key)
  }

  lemma WrittenIsOwned(modules: seq<Module>, key: ModuleKey, name: string, t: Target)
    ensures Owns(modules, key, name, t) <==> IsWritten(modules, name, t) && modules[t.place.0].key == key
  {
    if IsWritten(modules, name, t) && modules[t.place.0].key == key {
      var i, n := t.place.0, t.place.1;
      assert IsDeclaredAt(modules[i], i, n, name, t) || IsAliasedAt(modules, modules[i], i, n, name, t);
      assert OwnsAt(modules, i, key, name, t);
    }
    if i: nat :| i < |modules| && OwnsAt(modules, i, key, name, t) {
      var m := modules[i];
      if DeclaresUpTo(m, i, |m.declarations|, name, t) {
        var d: nat :| d < |m.declarations| && IsDeclaredAt(m, i, d, name, t);
      } else {
        var k: nat :| k < |m.imports| && IsAliasedAt(modules, m, i, k, name, t);
      }
    }
  }

  /** A module exposes exactly the targets written in a module at the end of some chain of open imports from it. */
  lemma ExposedIsWritten(modules: seq<Module>, key: ModuleKey, name: string, t: Target)
    ensures Reexports(modules, key, name, t) <==>
              IsWritten(modules, name, t) && exists chain :: IsChain(modules, chain, key, modules[t.place.0].key)
  {
    if IsWritten(modules, name, t) {
      WrittenIsOwned(modules, modules[t.place.0].key, name, t);
    }
    if chain, last :| IsChain(modules, chain, key, last) && Owns(modules, last, name, t) {
      WrittenIsOwned(modules, last, name, t);
    }
  }

  ghost predicate IsSound(modules: seq<Module>, exports: Exports) {
    && (forall key :: key in exports <==> HasKey(modules, key))
    && (forall key, name, t :: Exposes(exports, key, name, t) ==> Reexports(modules, key, name, t))
  }

  // ---------- Building one table of names ----------

  ghost predicate NoneEmpty(names: Names) {
    forall name :: name in names ==> names[name] != {}
  }

  /** Adds a target to the targets of a name, and says whether it was new. */
  method Add(names: Names, name: string, t: Target) returns (after: Names, changed: bool)
    ensures forall n, u :: InNames(after, n, u) <==> InNames(names, n, u) || (n == name && u == t)
    ensures changed <==> !InNames(names, name, t)
    ensures !changed ==> after == names
    ensures NoneEmpty(names) ==> NoneEmpty(after)
  {
    var targets := if name in names then names[name] else {};
    changed := t !in targets;
    after := names[name := targets + {t}];
    if !changed {
      assert targets + {t} == targets;
    }
  }

  /** Enters a module's own declarations and aliases. */
  method AddOwn(modules: seq<Module>, i: nat, names: Names) returns (after: Names)
    requires i < |modules|
    ensures forall n, t :: InNames(after, n, t) <==> InNames(names, n, t) || Introduces(modules, i, n, t)
    ensures NoneEmpty(names) ==> NoneEmpty(after)
  {
    var m := modules[i];
    after := names;
    var changed;
    var d := 0;
    while d < |m.declarations|
      invariant 0 <= d <= |m.declarations|
      invariant forall n, t :: InNames(after, n, t) <==> InNames(names, n, t) || DeclaresUpTo(m, i, d, n, t)
      invariant NoneEmpty(names) ==> NoneEmpty(after)
    {
      after, changed := Add(after, m.declarations[d].name, Declared((i, d), m.declarations[d]));
      OneMoreDeclaration(m, i, d);
      d := d + 1;
    }
    ghost var declared := after;
    var k := 0;
    while k < |m.imports|
      invariant 0 <= k <= |m.imports|
      invariant forall n, t :: InNames(after, n, t) <==> InNames(declared, n, t) || AliasesUpTo(modules, m, i, k, n, t)
      invariant NoneEmpty(names) ==> NoneEmpty(after)
    {
      var imported := m.imports[k];
      OneMoreImport(modules, m, i, k);
      if imported.alias.Some? && imported.target.Some? && HasKey(modules, imported.target.value) {
        after, changed := Add(after, imported.alias.value, Namespace((i, k), imported.alias.value, imported.target.value));
      }
      k := k + 1;
    }
  }

  lemma OneMoreDeclaration(m: Module, i: nat, d: nat)
    ensures forall n, t :: DeclaresUpTo(m, i, d + 1, n, t) <==> DeclaresUpTo(m, i, d, n, t) || IsDeclaredAt(m, i, d, n, t)
  {
  }

  lemma OneMoreImport(modules: seq<Module>, m: Module, i: nat, k: nat)
    ensures forall n, t ::
              AliasesUpTo(modules, m, i, k + 1, n, t) <==> AliasesUpTo(modules, m, i, k, n, t) || IsAliasedAt(modules, m, i, k, n, t)
  {
  }

  /** Copies every target of every name, and says whether any was new. */
  method Merge(names: Names, source: Names) returns (after: Names, changed: bool)
    ensures forall n, t :: InNames(after, n, t) <==> InNames(names, n, t) || InNames(source, n, t)
    ensures changed <==> exists n, t :: InNames(source, n, t) && !InNames(names, n, t)
    ensures !changed ==> after == names
    ensures NoneEmpty(names) ==> NoneEmpty(after)
  {
    after, changed := names, false;
    var rest := source.Keys;
    while rest != {}
      invariant rest <= source.Keys
      invariant forall n, t :: InNames(after, n, t) <==> InNames(names, n, t) || (n !in rest && InNames(source, n, t))
      invariant changed <==> exists n, t :: n !in rest && InNames(source, n, t) && !InNames(names, n, t)
      invariant !changed ==> after == names
      invariant NoneEmpty(names) ==> NoneEmpty(after)
      decreases rest
    {
      var name :| name in rest;
      var more;
      ghost var before := after;
      after, more := MergeTargets(after, name, source[name]);
      changed := more || changed;
      rest := rest - {name};
    }
  }

  method MergeTargets(names: Names, name: string, targets: set<Target>) returns (after: Names, changed: bool)
    ensures forall n, t :: InNames(after, n, t) <==> InNames(names, n, t) || (n == name && t in targets)
    ensures changed <==> exists t :: t in targets && !InNames(names, name, t)
    ensures !changed ==> after == names
    ensures NoneEmpty(names) ==> NoneEmpty(after)
  {
    after, changed := names, false;
    var rest := targets;
    while rest != {}
      invariant rest <= targets
      invariant forall n, t :: InNames(after, n, t) <==> InNames(names, n, t) || (n == name && t in targets && t !in rest)
      invariant changed <==> exists t :: t in targets && t !in rest && !InNames(names, name, t)
      invariant !changed ==> after == names
      invariant NoneEmpty(names) ==> NoneEmpty(after)
      decreases rest
    {
      var t :| t in rest;
      var more;
      after, more := Add(after, name, t);
      changed := more || changed;
      rest := rest - {t};
    }
  }

  // ---------- The fixpoint ----------

  ghost predicate AllNoneEmpty(exports: Exports) {
    forall key :: key in exports ==> NoneEmpty(exports[key])
  }

  /** Every module key, with no names yet. */
  method EmptyExports(modules: seq<Module>) returns (exports: Exports)
    ensures forall key :: key in exports <==> HasKey(modules, key)
    ensures forall key :: key in exports ==> exports[key] == map[]
  {
    exports := map[];
    var i := 0;
    while i < |modules|
      invariant 0 <= i <= |modules|
      invariant forall key :: key in exports <==> HasKey(modules[..i], key)
      invariant forall key :: key in exports ==> exports[key] == map[]
    {
      OneMoreKey(modules, i);
      exports := exports[modules[i].key := map[]];
      i := i + 1;
    }
    assert modules[..i] == modules;
  }

  lemma OneMoreKey(modules: seq<Module>, i: nat)
    requires i < |modules|
    ensures forall key :: HasKey(modules[..i + 1], key) <==> HasKey(modules[..i], key) || key == modules[i].key
  {
    forall key ensures HasKey(modules[..i + 1], key) <==> HasKey(modules[..i], key) || key == modules[i].key {
      if key == modules[i].key { assert modules[..i + 1][i].key == key; }
      if HasKey(modules[..i], key) {
        var j :| 0 <= j < i && modules[..i][j].key == key;
        assert modules[..i + 1][j].key == key;
      }
      if HasKey(modules[..i + 1], key) && key != modules[i].key {
        var j :| 0 <= j < i + 1 && modules[..i + 1][j].key == key;
        assert modules[..i][j].key == key;
      }
    }
  }

  ghost predicate ExposesOwn(modules: seq<Module>, n: nat, exports: Exports) {
    forall key, name, t :: Exposes(exports, key, name, t) <==> OwnsUpTo(modules, n, key, name, t)
  }

  lemma OneMoreEntry(modules: seq<Module>, i: nat, exports: Exports, names: Names)
    requires i < |modules| && modules[i].key in exports && ExposesOwn(modules, i, exports)
    requires forall n, t :: InNames(names, n, t) <==> InNames(exports[modules[i].key], n, t) || Introduces(modules, i, n, t)
    ensures ExposesOwn(modules, i + 1, exports[modules[i].key := names])
  {
    var key := modules[i].key;
    OneMoreOwner(modules, i);
    var after := exports[key := names];
    ReplaceNames(exports, key, names);
    forall k, n, t ensures Exposes(after, k, n, t) <==> OwnsUpTo(modules, i + 1, k, n, t) {
      assert k == key ==> (Exposes(exports, key, n, t) <==> InNames(exports[key], n, t));
      assert OwnsUpTo(modules, i + 1, k, n, t) <==> OwnsUpTo(modules, i, k, n, t) || OwnsAt(modules, i, k, n, t);
      assert Exposes(exports, k, n, t) <==> OwnsUpTo(modules, i, k, n, t);
    }
  }

  method OwnExports(modules: seq<Module>) returns (exports: Exports)
    ensures forall key :: key in exports <==> HasKey(modules, key)
    ensures forall key, name, t :: Exposes(exports, key, name, t) <==> Owns(modules, key, name, t)
    ensures AllNoneEmpty(exports)
  {
    exports := EmptyExports(modules);
    var i := 0;
    while i < |modules|
      invariant 0 <= i <= |modules|
      invariant forall key :: key in exports <==> HasKey(modules, key)
      invariant ExposesOwn(modules, i, exports)
      invariant AllNoneEmpty(exports)
    {
      var key := modules[i].key;
      assert HasKey(modules, key);
      var names := AddOwn(modules, i, exports[key]);
      OneMoreEntry(modules, i, exports, names);
      assert NoneEmpty(exports[key]);
      exports := exports[key := names];
      i := i + 1;
    }
  }

  lemma ReplaceNames(exports: Exports, key: ModuleKey, names: Names)
    ensures forall k, name, t ::
              Exposes(exports[key := names], k, name, t)
              <==> (if k == key then InNames(names, name, t) else Exposes(exports, k, name, t))
  {
    var after := exports[key := names];
    forall k, name, t
      ensures Exposes(after, k, name, t) <==> (if k == key then InNames(names, name, t) else Exposes(exports, k, name, t))
    {
      assert k in after <==> k == key || k in exports;
    }
  }

  lemma OneMoreOwner(modules: seq<Module>, i: nat)
    ensures forall key, name, t ::
              OwnsUpTo(modules, i + 1, key, name, t) <==> OwnsUpTo(modules, i, key, name, t) || OwnsAt(modules, i, key, name, t)
  {
  }

  ghost predicate Grows(small: Exports, big: Exports) {
    forall key, name, t :: Exposes(small, key, name, t) ==> Exposes(big, key, name, t)
  }

  ghost predicate PassesOn(exports: Exports, a: ModuleKey, b: ModuleKey) {
    forall name, t :: Exposes(exports, b, name, t) ==> Exposes(exports, a, name, t)
  }

  /** The first `n` imports of entry `i` pass on everything they should. */
  ghost predicate ImportsPassOn(modules: seq<Module>, exports: Exports, i: nat, n: nat)
    requires i < |modules|
  {
    forall k: nat, b :: k < n && IsOpenImport(modules, i, k, modules[i].key, b) ==> PassesOn(exports, modules[i].key, b)
  }

  ghost predicate EntriesPassOn(modules: seq<Module>, exports: Exports, n: nat)
    requires n <= |modules|
  {
    forall i: nat :: i < n ==> ImportsPassOn(modules, exports, i, |modules[i].imports|)
  }

  /** Some name is exposed now that was not before. */
  ghost predicate IsLarger(small: Exports, big: Exports) {
    exists key, name, t :: Exposes(big, key, name, t) && !Exposes(small, key, name, t)
  }

  ghost predicate IsTable(modules: seq<Module>, exports: Exports) {
    IsSound(modules, exports) && AllNoneEmpty(exports)
  }

  lemma StillLarger(a: Exports, b: Exports, c: Exports)
    requires Grows(a, b) && Grows(b, c) && (IsLarger(a, b) || IsLarger(b, c))
    ensures Grows(a, c) && IsLarger(a, c)
  {
    if IsLarger(a, b) {
      var key, name, t :| Exposes(b, key, name, t) && !Exposes(a, key, name, t);
      assert Exposes(c, key, name, t);
    } else {
      var key, name, t :| Exposes(c, key, name, t) && !Exposes(b, key, name, t);
      assert !Exposes(a, key, name, t);
    }
  }

  lemma MergeIsSound(modules: seq<Module>, exports: Exports, a: ModuleKey, b: ModuleKey, names: Names)
    requires IsSound(modules, exports) && Opens(modules, a, b) && a in exports && b in exports
    requires forall n, t :: InNames(names, n, t) <==> InNames(exports[a], n, t) || InNames(exports[b], n, t)
    ensures IsSound(modules, exports[a := names])
    ensures Grows(exports, exports[a := names])
    ensures (exists n, t :: InNames(exports[b], n, t) && !InNames(exports[a], n, t)) ==> IsLarger(exports, exports[a := names])
  {
    var after := exports[a := names];
    ReplaceNames(exports, a, names);
    forall key, name, t | Exposes(after, key, name, t) ensures Reexports(modules, key, name, t) {
      if key == a && !Exposes(exports, a, name, t) {
        assert Exposes(exports, b, name, t);
        OpenedIsExported(modules, a, b, name, t);
      } else {
        assert Exposes(exports, key, name, t);
      }
    }
    if n, t :| InNames(exports[b], n, t) && !InNames(exports[a], n, t) {
      assert Exposes(after, a, n, t) && !Exposes(exports, a, n, t);
    }
  }

  /** Copies the names of one imported module into its importer. */
  method PassOn(modules: seq<Module>, exports: Exports, a: ModuleKey, b: ModuleKey)
    returns (after: Exports, changed: bool)
    requires IsTable(modules, exports) && Opens(modules, a, b) && a in exports && b in exports
    ensures IsTable(modules, after) && Grows(exports, after)
    ensures changed ==> IsLarger(exports, after)
    ensures !changed ==> after == exports && PassesOn(exports, a, b)
  {
    var names;
    assert NoneEmpty(exports[a]);
    names, changed := Merge(exports[a], exports[b]);
    MergeIsSound(modules, exports, a, b, names);
    after := exports[a := names];
  }

  /** One round over all imports of one entry. */
  method PassOnImports(modules: seq<Module>, exports: Exports, i: nat) returns (after: Exports, changed: bool)
    requires i < |modules| && IsTable(modules, exports)
    ensures IsTable(modules, after) && Grows(exports, after)
    ensures changed ==> IsLarger(exports, after)
    ensures !changed ==> after == exports && ImportsPassOn(modules, exports, i, |modules[i].imports|)
  {
    var m := modules[i];
    after, changed := exports, false;
    var k := 0;
    while k < |m.imports|
      invariant 0 <= k <= |m.imports|
      invariant IsTable(modules, after) && Grows(exports, after)
      invariant changed ==> IsLarger(exports, after)
      invariant !changed ==> after == exports && ImportsPassOn(modules, exports, i, k)
    {
      var imported := m.imports[k];
      if imported.alias.None? && imported.target.Some? && imported.target.value in after {
        ghost var before := after;
        assert IsOpenImport(modules, i, k, m.key, imported.target.value);
        assert HasKey(modules, m.key);
        var more;
        after, more := PassOn(modules, after, m.key, imported.target.value);
        if more || changed { StillLarger(exports, before, after); }
        changed := more || changed;
      }
      k := k + 1;
    }
  }

  /** One round over all modules. */
  method PassOnAll(modules: seq<Module>, exports: Exports) returns (after: Exports, changed: bool)
    requires IsTable(modules, exports)
    ensures IsTable(modules, after) && Grows(exports, after)
    ensures changed ==> IsLarger(exports, after)
    ensures !changed ==> after == exports && EntriesPassOn(modules, exports, |modules|)
  {
    after, changed := exports, false;
    var i := 0;
    while i < |modules|
      invariant 0 <= i <= |modules|
      invariant IsTable(modules, after) && Grows(exports, after)
      invariant changed ==> IsLarger(exports, after)
      invariant !changed ==> after == exports && EntriesPassOn(modules, exports, i)
    {
      ghost var before := after;
      var more;
      after, more := PassOnImports(modules, after, i);
      if more || changed { StillLarger(exports, before, after); }
      changed := more || changed;
      i := i + 1;
    }
  }

  lemma QuietRoundCloses(modules: seq<Module>, own: Exports, exports: Exports)
    requires forall key, name, t :: Owns(modules, key, name, t) ==> Exposes(own, key, name, t)
    requires Grows(own, exports) && EntriesPassOn(modules, exports, |modules|)
    ensures IsClosed(modules, exports)
  {
    forall a, b, name, t | Opens(modules, a, b) && Exposes(exports, b, name, t) ensures Exposes(exports, a, name, t) {
      var i: nat, k: nat :| IsOpenImport(modules, i, k, a, b);
      assert ImportsPassOn(modules, exports, i, |modules[i].imports|);
      assert PassesOn(exports, a, b);
    }
  }

  // ---------- Termination: only finitely many entries can ever be exposed ----------

  type Entry = (ModuleKey, string, Target)

  ghost function Entries(exports: Exports): set<Entry> {
    set key, name, t | key in exports && name in exports[key] && t in exports[key][name] :: (key, name, t)
  }

  ghost function Universe(own: Exports): set<Entry> {
    set key, e | key in own && e in Entries(own) :: (key, e.1, e.2)
  }

  ghost function Missing(own: Exports, exports: Exports): set<Entry> {
    set e | e in Universe(own) && !Exposes(exports, e.0, e.1, e.2)
  }

  lemma MissingShrinks(modules: seq<Module>, own: Exports, small: Exports, big: Exports)
    requires forall key, name, t :: Owns(modules, key, name, t) ==> Exposes(own, key, name, t)
    requires forall key :: key in own <==> HasKey(modules, key)
    requires IsSound(modules, big) && Grows(small, big) && IsLarger(small, big)
    ensures Missing(own, big) < Missing(own, small)
  {
    var key, name, t :| Exposes(big, key, name, t) && !Exposes(small, key, name, t);
    var chain, last :| IsChain(modules, chain, key, last) && Owns(modules, last, name, t);
    assert Exposes(own, last, name, t);
    assert (last, name, t) in Entries(own);
    assert (key, name, t) in Universe(own);
    assert (key, name, t) in Missing(own, small) && (key, name, t) !in Missing(own, big);
  }

  /** The names a workspace exposes: exactly those that reach a module along its open imports. */
  method BuildModuleExports(modules: seq<Module>) returns (exports: Exports)
    ensures forall key :: key in exports <==> HasKey(modules, key)
    ensures forall key, name, t :: Exposes(exports, key, name, t) <==> HasKey(modules, key) && Reexports(modules, key, name, t)
    ensures AllNoneEmpty(exports)
  {
    exports := OwnExports(modules);
    ghost var own := exports;
    forall key, name, t | Exposes(exports, key, name, t) ensures Reexports(modules, key, name, t) {
      OwnIsExported(modules, key, name, t);
    }
    var changed := true;
    while changed
      invariant IsTable(modules, exports) && Grows(own, exports)
      invariant !changed ==> EntriesPassOn(modules, exports, |modules|)
      decreases Missing(own, exports), changed
    {
      ghost var before := exports;
      exports, changed := PassOnAll(modules, exports);
      if changed { MissingShrinks(modules, own, before, exports); }
    }
    QuietRoundCloses(modules, own, exports);
    forall key, name, t | HasKey(modules, key) && Reexports(modules, key, name, t) ensures Exposes(exports, key, name, t) {
      ReexportsAreLeast(modules, exports, key, name, t);
    }
  }
}
