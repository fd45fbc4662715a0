/** Ordering the apps of an import graph by depth-first search, and compiling them in that order. */
module AppGraph {
  import opened Wrappers

  datatype SourceApp = SourceApp(source: string, app: string)

  /** What the resolved modules know: module ids by path, and for every declared app
      its referenced apps, or the error of resolving them. */
  datatype Program = Program(
    moduleIds: map<string, nat>, declared: map<SourceApp, Result<seq<SourceApp>, string>>)

  datatype AppBuildUnit = AppBuildUnit(sourceApp: SourceApp, root: nat, dependencies: seq<SourceApp>)

  datatype Visit = Active(start: nat) | Complete

  datatype PlanError =
    | ImportedFromBoth(name: string, previous: string, source: string)
    | ImportCycle(path: seq<SourceApp>)
    | OutsideImportGraph(app: SourceApp)
    | NotDeclared(app: SourceApp)
    | Unresolved(app: SourceApp, message: string)

  // ---------- The dependency graph ----------

  ghost predicate Resolves(p: Program, a: SourceApp) {
    a.source in p.moduleIds && a in p.declared && p.declared[a].Ok?
  }

  ghost predicate DependsOn(p: Program, a: SourceApp, b: SourceApp) {
    Resolves(p, a) && b in p.declared[a].value
  }

  /** Each app of the path depends on the next. */
  ghost predicate IsPath(p: Program, path: seq<SourceApp>) {
    path != [] && forall i, j :: 0 <= i < j < |path| && j == i + 1 ==> DependsOn(p, path[i], path[j])
  }

  ghost predicate PathBetween(p: Program, a: SourceApp, b: SourceApp, path: seq<SourceApp>) {
    IsPath(p, path) && path[0] == a && path[|path| - 1] == b
  }

  ghost predicate Reachable(p: Program, root: SourceApp, a: SourceApp) {
    exists path :: PathBetween(p, root, a, path)
  }

  ghost predicate IsCycle(p: Program, path: seq<SourceApp>) {
    2 <= |path| && PathBetween(p, path[0], path[0], path)
  }

  lemma ReachableStep(p: Program, root: SourceApp, a: SourceApp, b: SourceApp)
    requires Reachable(p, root, a) && DependsOn(p, a, b)
    ensures Reachable(p, root, b)
  {
    var path :| PathBetween(p, root, a, path);
    assert PathBetween(p, root, b, path + [b]);
  }

  // ---------- What a good order is ----------

  ghost predicate HoldsApp(order: seq<AppBuildUnit>, a: SourceApp) {
    exists k :: 0 <= k < |order| && order[k].sourceApp == a
  }

  ghost predicate UnitIs(p: Program, unit: AppBuildUnit) {
    && Resolves(p, unit.sourceApp)
    && unit.root == p.moduleIds[unit.sourceApp.source]
    && unit.dependencies == p.declared[unit.sourceApp].value
  }

  /** Every unit is one app's, comes after its dependencies, and occurs once. */
  ghost predicate IsTopological(p: Program, order: seq<AppBuildUnit>) {
    && (forall k :: 0 <= k < |order| ==> UnitIs(p, order[k]))
    && (forall k, d :: 0 <= k < |order| && d in order[k].dependencies ==> HoldsApp(order[..k], d))
    && (forall k, l :: 0 <= k < l < |order| ==> order[k].sourceApp != order[l].sourceApp)
  }

  /** One source per app name. */
  ghost predicate OneSourcePerName(order: seq<AppBuildUnit>) {
    forall k, l :: 0 <= k < |order| && 0 <= l < |order| && order[k].sourceApp.app == order[l].sourceApp.app ==>
      order[k].sourceApp == order[l].sourceApp
  }

  ghost predicate IsAppPlan(p: Program, root: SourceApp, order: seq<AppBuildUnit>) {
    && IsTopological(p, order) && OneSourcePerName(order)
    && order != [] && order[|order| - 1].sourceApp == root
    && forall a :: HoldsApp(order, a) <==> Reachable(p, root, a)
  }

  /** The error describes a real fault of something reachable. */
  ghost predicate IsRealFault(p: Program, root: SourceApp, e: PlanError) {
    match e
    case ImportedFromBoth(app, previous, source) =>
      previous != source && Reachable(p, root, SourceApp(previous, app)) && Reachable(p, root, SourceApp(source, app))
    case ImportCycle(path) => IsCycle(p, path) && Reachable(p, root, path[0])
    case OutsideImportGraph(a) => Reachable(p, root, a) && a.source !in p.moduleIds
    case NotDeclared(a) => Reachable(p, root, a) && a.source in p.moduleIds && a !in p.declared
    case Unresolved(a, message) => Reachable(p, root, a) && a in p.declared && p.declared[a] == Err(message)
  }

  /** Nothing reachable is unresolved, on a cycle, or named like another reachable app. */
  ghost predicate Plannable(p: Program, root: SourceApp) {
    && (forall a :: Reachable(p, root, a) ==> Resolves(p, a))
    && (forall path :: IsCycle(p, path) ==> !Reachable(p, root, path[0]))
    && (forall a, b :: Reachable(p, root, a) && Reachable(p, root, b) && a.app == b.app ==> a == b)
  }

  lemma FaultIsNotPlannable(p: Program, root: SourceApp, e: PlanError)
    requires IsRealFault(p, root, e)
    ensures !Plannable(p, root)
  {
  }

  /** Along a path inside a topological order, positions go strictly down. */
  lemma {:induction false} PathsGoDown(p: Program, order: seq<AppBuildUnit>, path: seq<SourceApp>, k: nat)
    returns (l: nat)
    requires IsTopological(p, order) && IsPath(p, path) && k < |order| && order[k].sourceApp == path[0]
    ensures l < |order| && order[l].sourceApp == path[|path| - 1]
    ensures l <= k && (2 <= |path| ==> l < k)
    decreases |path|
  {
    l := k;
    if 2 <= |path| {
      assert DependsOn(p, path[0], path[1]);
      assert path[1] in order[k].dependencies;
      var m :| 0 <= m < k && order[..k][m].sourceApp == path[1];
      assert IsPath(p, path[1..]) by {
        forall i, j | 0 <= i < j < |path[1..]| && j == i + 1 ensures DependsOn(p, path[1..][i], path[1..][j]) {
          assert path[1..][i] == path[i + 1] && path[1..][j] == path[j + 1];
        }
      }
      l := PathsGoDown(p, order, path[1..], m);
    }
  }

  /** A planned order excludes every fault: what was planned is plannable. */
  lemma PlannedIsPlannable(p: Program, root: SourceApp, order: seq<AppBuildUnit>)
    requires IsAppPlan(p, root, order)
    ensures Plannable(p, root)
  {
    forall path | IsCycle(p, path) ensures !Reachable(p, root, path[0]) {
      if HoldsApp(order, path[0]) {
        var k :| 0 <= k < |order| && order[k].sourceApp == path[0];
        var l := PathsGoDown(p, order, path, k);
      }
    }
    forall a | Reachable(p, root, a) ensures Resolves(p, a) {
      assert HoldsApp(order, a);
      var k :| 0 <= k < |order| && order[k].sourceApp == a;
      assert UnitIs(p, order[k]);
    }
    forall a, b | Reachable(p, root, a) && Reachable(p, root, b) && a.app == b.app ensures a == b {
      assert HoldsApp(order, a) && HoldsApp(order, b);
    }
  }

  // ---------- The planner ----------

  /** The planner's fields, as one value. */
  datatype Search = Search(appSources: map<string, string>, visits: map<SourceApp, Visit>,
                           stack: seq<SourceApp>, order: seq<AppBuildUnit>)

  /** The stack is a path of exactly the active apps, each knowing its position. */
  ghost predicate StackOk(p: Program, stack: seq<SourceApp>, visits: map<SourceApp, Visit>) {
    && (stack != [] ==> IsPath(p, stack))
    && (forall i :: 0 <= i < |stack| ==> stack[i] in visits && visits[stack[i]] == Active(i))
    && (forall a :: a in visits && visits[a].Active? ==> visits[a].start < |stack| && stack[visits[a].start] == a)
  }

  /** The order is a topological order of exactly the complete apps. */
  ghost predicate OrderOk(p: Program, order: seq<AppBuildUnit>, visits: map<SourceApp, Visit>) {
    && IsTopological(p, order)
    && (forall a :: HoldsApp(order, a) <==> a in visits && visits[a].Complete?)
  }

  /** Everything visited is reachable, and its name is registered with its source alone. */
  ghost predicate NamesOk(p: Program, root: SourceApp, appSources: map<string, string>, visits: map<SourceApp, Visit>) {
    && (forall a :: a in visits ==> Reachable(p, root, a) && a.app in appSources && appSources[a.app] == a.source)
    && (forall n :: n in appSources ==> SourceApp(appSources[n], n) in visits)
  }

  /** What the search keeps. */
  ghost predicate Searching(p: Program, root: SourceApp, s: Search) {
    StackOk(p, s.stack, s.visits) && OrderOk(p, s.order, s.visits) && NamesOk(p, root, s.appSources, s.visits)
  }

  /** The search went on below the current stack: what was visited keeps its mark,
      what is newly visited is complete, and the order only grew. */
  ghost predicate Progressed(s: Search, t: Search) {
    && t.stack == s.stack && s.order <= t.order
    && (forall a :: a in s.visits ==> a in t.visits && t.visits[a] == s.visits[a])
    && (forall a :: a in t.visits && a !in s.visits ==> t.visits[a].Complete?)
  }

  ghost predicate IsComplete(s: Search, a: SourceApp) {
    a in s.visits && s.visits[a].Complete?
  }

  /** What a successful visit does. */
  ghost predicate VisitedApp(s: Search, app: SourceApp, t: Search) {
    && Progressed(s, t) && IsComplete(t, app)
    && (app !in s.visits ==> t.order != [] && t.order[|t.order| - 1].sourceApp == app)
  }

  ghost predicate AllComplete(s: Search, apps: seq<SourceApp>) {
    forall a :: a in apps ==> IsComplete(s, a)
  }

  lemma ProgressIsTransitive(s: Search, t: Search, u: Search)
    requires Progressed(s, t) && Progressed(t, u)
    ensures Progressed(s, u)
    ensures forall a :: IsComplete(t, a) ==> IsComplete(u, a)
  {
  }

  /** The state after registering the app's name and source. */
  function Registered(s: Search, app: SourceApp): Search {
    s.(appSources := s.appSources[app.app := app.source])
  }

  function Entered(s: Search, app: SourceApp): Search {
    s.(visits := s.visits[app := Active(|s.stack|)], stack := s.stack + [app])
  }

  function Left(s: Search, app: SourceApp, unit: AppBuildUnit): Search
    requires s.stack != []
  {
    s.(stack := s.stack[..|s.stack| - 1], visits := s.visits[app := Complete], order := s.order + [unit])
  }

  lemma PathExtends(p: Program, path: seq<SourceApp>, a: SourceApp)
    requires path != [] ==> IsPath(p, path) && DependsOn(p, path[|path| - 1], a)
    ensures IsPath(p, path + [a])
  {
    var longer := path + [a];
    forall i, j | 0 <= i < j < |longer| && j == i + 1 ensures DependsOn(p, longer[i], longer[j]) {
      if j < |path| {
        assert longer[i] == path[i] && longer[j] == path[j];
      }
    }
  }

  lemma StackEntered(p: Program, stack: seq<SourceApp>, visits: map<SourceApp, Visit>, app: SourceApp)
    requires StackOk(p, stack, visits) && app !in visits
    requires stack != [] ==> DependsOn(p, stack[|stack| - 1], app)
    ensures StackOk(p, stack + [app], visits[app := Active(|stack|)])
  {
    PathExtends(p, stack, app);
  }

  lemma OrderEntered(p: Program, order: seq<AppBuildUnit>, visits: map<SourceApp, Visit>, app: SourceApp, start: nat)
    requires OrderOk(p, order, visits) && app !in visits
    ensures OrderOk(p, order, visits[app := Active(start)])
  {
  }

  lemma EnterKeeps(p: Program, root: SourceApp, s: Search, app: SourceApp)
    requires Searching(p, root, s) && Reachable(p, root, app) && app !in s.visits
    requires s.stack != [] ==> DependsOn(p, s.stack[|s.stack| - 1], app)
    requires app.app in s.appSources ==> s.appSources[app.app] == app.source
    ensures Searching(p, root, Entered(Registered(s, app), app))
  {
    StackEntered(p, s.stack, s.visits, app);
    OrderEntered(p, s.order, s.visits, app, |s.stack|);
    NamesEntered(p, root, s.appSources, s.visits, app, Active(|s.stack|));
  }

  lemma NamesEntered(p: Program, root: SourceApp, appSources: map<string, string>, visits: map<SourceApp, Visit>,
                     app: SourceApp, visit: Visit)
    requires NamesOk(p, root, appSources, visits) && Reachable(p, root, app)
    requires app.app in appSources ==> appSources[app.app] == app.source
    ensures NamesOk(p, root, appSources[app.app := app.source], visits[app := visit])
  {
  }

  lemma StackLeft(p: Program, stack: seq<SourceApp>, visits: map<SourceApp, Visit>)
    requires StackOk(p, stack, visits) && stack != []
    ensures StackOk(p, stack[..|stack| - 1], visits[stack[|stack| - 1] := Complete])
  {
    var top := stack[|stack| - 1];
    var rest := stack[..|stack| - 1];
    assert visits[top] == Active(|stack| - 1);
    assert forall i :: 0 <= i < |rest| ==> rest[i] == stack[i];
    if rest != [] {
      forall i, j | 0 <= i < j < |rest| && j == i + 1 ensures DependsOn(p, rest[i], rest[j]) {
        assert DependsOn(p, stack[i], stack[j]);
      }
    }
  }

  /** A unit whose dependencies are all in the order may follow it. */
  lemma TopologicalOneMore(p: Program, order: seq<AppBuildUnit>, unit: AppBuildUnit)
    requires IsTopological(p, order) && UnitIs(p, unit) && !HoldsApp(order, unit.sourceApp)
    requires forall d :: d in unit.dependencies ==> HoldsApp(order, d)
    ensures IsTopological(p, order + [unit])
  {
    var longer := order + [unit];
    forall k, d | 0 <= k < |longer| && d in longer[k].dependencies ensures HoldsApp(longer[..k], d) {
      if k == |order| {
        assert longer[..k] == order;
      } else {
        assert longer[..k] == order[..k] && longer[k] == order[k];
      }
    }
    forall k, l | 0 <= k < l < |longer| ensures longer[k].sourceApp != longer[l].sourceApp {
      if l == |order| {
        assert longer[k] == order[k] && HoldsApp(order, order[k].sourceApp);
      } else {
        assert longer[k] == order[k] && longer[l] == order[l];
      }
    }
  }

  lemma HoldsOneMore(order: seq<AppBuildUnit>, unit: AppBuildUnit)
    ensures forall a :: HoldsApp(order + [unit], a) <==> HoldsApp(order, a) || a == unit.sourceApp
  {
    var longer := order + [unit];
    assert longer[|order|] == unit;
    forall a | HoldsApp(order, a) ensures HoldsApp(longer, a) {
      var k :| 0 <= k < |order| && order[k].sourceApp == a;
      assert longer[k].sourceApp == a;
    }
  }

  lemma OrderLeft(p: Program, order: seq<AppBuildUnit>, visits: map<SourceApp, Visit>, unit: AppBuildUnit)
    requires OrderOk(p, order, visits) && UnitIs(p, unit)
    requires unit.sourceApp in visits && visits[unit.sourceApp].Active?
    requires forall d :: d in unit.dependencies ==> d in visits && visits[d].Complete?
    ensures OrderOk(p, order + [unit], visits[unit.sourceApp := Complete])
  {
    TopologicalOneMore(p, order, unit);
    HoldsOneMore(order, unit);
  }

  lemma NamesLeft(p: Program, root: SourceApp, appSources: map<string, string>, visits: map<SourceApp, Visit>,
                  app: SourceApp, visit: Visit)
    requires NamesOk(p, root, appSources, visits) && app in visits
    ensures NamesOk(p, root, appSources, visits[app := visit])
  {
  }

  lemma LeaveKeeps(p: Program, root: SourceApp, s: Search, app: SourceApp, unit: AppBuildUnit)
    requires Searching(p, root, s) && s.stack != [] && s.stack[|s.stack| - 1] == app
    requires UnitIs(p, unit) && unit.sourceApp == app
    requires forall d :: d in unit.dependencies ==> d in s.visits && s.visits[d].Complete?
    ensures Searching(p, root, Left(s, app, unit))
  {
    StackLeft(p, s.stack, s.visits);
    OrderLeft(p, s.order, s.visits, unit);
    NamesLeft(p, root, s.appSources, s.visits, app, Complete);
  }

  /** Meeting an active app closes a cycle. */
  lemma ActiveAppClosesCycle(p: Program, root: SourceApp, s: Search, app: SourceApp)
    requires Searching(p, root, s) && app in s.visits && s.visits[app].Active?
    requires s.stack != [] && DependsOn(p, s.stack[|s.stack| - 1], app)
    ensures s.visits[app].start < |s.stack|
    ensures IsCycle(p, s.stack[s.visits[app].start..] + [app])
  {
    var start := s.visits[app].start;
    var cycle := s.stack[start..] + [app];
    forall i, j | 0 <= i < j < |cycle| && j == i + 1 ensures DependsOn(p, cycle[i], cycle[j]) {
      assert cycle[i] == s.stack[start + i];
      if j < |cycle| - 1 {
        assert cycle[j] == s.stack[start + j];
      }
    }
  }

  class AppGraphPlanner {
    const program: Program
    var appSources: map<string, string>
    var visits: map<SourceApp, Visit>
    var stack: seq<SourceApp>
    var order: seq<AppBuildUnit>

    function Value(): Search
      reads this
    {
      Search(appSources, visits, stack, order)
    }

    constructor (program: Program)
      ensures this.program == program && Value() == Search(map[], map[], [], [])
    {
      this.program := program;
      appSources, visits, stack, order := map[], map[], [], [];
    }

    /** Visit one app and everything below it. */
    method VisitApp(app: SourceApp, ghost root: SourceApp) returns (fault: Option<PlanError>)
      requires Searching(program, root, Value()) && Reachable(program, root, app)
      requires if stack == [] then app !in visits else DependsOn(program, stack[|stack| - 1], app)
      modifies this
      ensures fault.None? ==> Searching(program, root, Value()) && VisitedApp(old(Value()), app, Value())
      ensures fault.Some? ==> IsRealFault(program, root, fault.value)
      decreases program.declared.Keys - visits.Keys, 1
    {
      ghost var before := Value();
      if app.app in appSources && appSources[app.app] != app.source {
        var previous := appSources[app.app];
        appSources := appSources[app.app := app.source];
        return Some(ImportedFromBoth(app.app, previous, app.source));
      }
      appSources := appSources[app.app := app.source];
      if app !in visits {
        fault := VisitNewApp(app, root, before);
      } else {
        assert Value() == before;
        match visits[app] {
          case Complete =>
            fault := None;
          case Active(start) =>
            ActiveAppClosesCycle(program, root, before, app);
            fault := Some(ImportCycle(stack[start..] + [app]));
        }
      }
    }

    /** Visit an app for the first time, once its name is registered. */
    method VisitNewApp(app: SourceApp, ghost root: SourceApp, ghost before: Search) returns (fault: Option<PlanError>)
      requires Searching(program, root, before) && Reachable(program, root, app) && app !in before.visits
      requires before.stack != [] ==> DependsOn(program, before.stack[|before.stack| - 1], app)
      requires app.app in before.appSources ==> before.appSources[app.app] == app.source
      requires Value() == Registered(before, app)
      modifies this
      ensures fault.None? ==> Searching(program, root, Value()) && VisitedApp(before, app, Value())
      ensures fault.Some? ==> IsRealFault(program, root, fault.value)
      decreases program.declared.Keys - visits.Keys, 0
    {
      if app.source !in program.moduleIds {
        return Some(OutsideImportGraph(app));
      }
      visits := visits[app := Active(|stack|)];
      stack := stack + [app];
      EnterKeeps(program, root, before, app);
      assert Value() == Entered(Registered(before, app), app);
      if app !in program.declared {
        fault := Some(NotDeclared(app));
      } else if program.declared[app].Err? {
        fault := Some(Unresolved(app, program.declared[app].error));
      } else {
        var dependencies := program.declared[app].value;
        fault := VisitDependencies(app, dependencies, root);
        if fault.None? {
          assert dependencies[..|dependencies|] == dependencies;
          CompleteApp(app, dependencies, root, before);
        }
      }
    }

    /** Leave an app whose dependencies are all complete. */
    method CompleteApp(app: SourceApp, dependencies: seq<SourceApp>, ghost root: SourceApp, ghost before: Search)
      requires Searching(program, root, Value()) && app !in before.visits
      requires Progressed(Entered(Registered(before, app), app), Value())
      requires Resolves(program, app) && dependencies == program.declared[app].value && AllComplete(Value(), dependencies)
      modifies this
      ensures Searching(program, root, Value()) && VisitedApp(before, app, Value())
    {
      var unit := AppBuildUnit(app, program.moduleIds[app.source], dependencies);
      ghost var done := Value();
      LeaveKeeps(program, root, done, app, unit);
      LeaveProgresses(before, app, Entered(Registered(before, app), app), done, unit);
      stack := stack[..|stack| - 1];
      visits := visits[app := Complete];
      order := order + [unit];
      assert Value() == Left(done, app, unit);
    }

    /** Visit the dependencies of the app on top of the stack. */
    method VisitDependencies(app: SourceApp, dependencies: seq<SourceApp>, ghost root: SourceApp)
      returns (fault: Option<PlanError>)
      requires Below(program, root, Value(), app, dependencies, Value(), 0)
      modifies this
      ensures fault.None? ==> Below(program, root, old(Value()), app, dependencies, Value(), |dependencies|)
      ensures fault.Some? ==> IsRealFault(program, root, fault.value)
      decreases program.declared.Keys - visits.Keys, 3
    {
      ghost var before := Value();
      fault := None;
      var i := 0;
      while i < |dependencies| && fault.None?
        invariant i <= |dependencies|
        invariant fault.None? ==> Below(program, root, before, app, dependencies, Value(), i)
        invariant fault.Some? ==> IsRealFault(program, root, fault.value)
        decreases |dependencies| - i, fault.None?
      {
        fault := VisitDependency(app, dependencies, i, root, before);
        i := i + 1;
      }
    }

    method VisitDependency(app: SourceApp, dependencies: seq<SourceApp>, i: nat, ghost root: SourceApp,
                           ghost before: Search)
      returns (fault: Option<PlanError>)
      requires Below(program, root, before, app, dependencies, Value(), i) && i < |dependencies|
      modifies this
      ensures fault.None? ==> Below(program, root, before, app, dependencies, Value(), i + 1)
      ensures fault.Some? ==> IsRealFault(program, root, fault.value)
      decreases program.declared.Keys - before.visits.Keys, 2
    {
      ghost var current := Value();
      DependencyIsNext(program, root, before, app, dependencies, current, i);
      fault := VisitApp(dependencies[i], root);
      if fault.None? {
        DependencyDone(program, root, before, app, dependencies, current, Value(), i);
      }
    }
  }

  /** The first `i` dependencies of the app on top of the stack have been visited. */
  ghost predicate Below(p: Program, root: SourceApp, before: Search, app: SourceApp, dependencies: seq<SourceApp>,
                        now: Search, i: nat) {
    && i <= |dependencies| && Resolves(p, app) && dependencies == p.declared[app].value
    && Searching(p, root, now) && Progressed(before, now)
    && now.stack != [] && now.stack[|now.stack| - 1] == app
    && AllComplete(now, dependencies[..i])
  }

  lemma DependencyIsNext(p: Program, root: SourceApp, before: Search, app: SourceApp, dependencies: seq<SourceApp>,
                         now: Search, i: nat)
    requires Below(p, root, before, app, dependencies, now, i) && i < |dependencies|
    ensures Reachable(p, root, dependencies[i]) && DependsOn(p, now.stack[|now.stack| - 1], dependencies[i])
    ensures p.declared.Keys - now.visits.Keys <= p.declared.Keys - before.visits.Keys
  {
    assert DependsOn(p, app, dependencies[i]);
    assert now.visits[now.stack[|now.stack| - 1]] == Active(|now.stack| - 1);
    ReachableStep(p, root, app, dependencies[i]);
  }

  /** Completing one more dependency keeps the earlier ones complete. */
  lemma DependencyDone(p: Program, root: SourceApp, before: Search, app: SourceApp, dependencies: seq<SourceApp>,
                       now: Search, next: Search, i: nat)
    requires Below(p, root, before, app, dependencies, now, i) && i < |dependencies|
    requires Searching(p, root, next) && VisitedApp(now, dependencies[i], next)
    ensures Below(p, root, before, app, dependencies, next, i + 1)
  {
    ProgressIsTransitive(before, now, next);
    CompleteOneMore(now, next, dependencies, i);
  }

  lemma CompleteOneMore(s: Search, t: Search, dependencies: seq<SourceApp>, i: nat)
    requires forall a :: IsComplete(s, a) ==> IsComplete(t, a)
    requires i < |dependencies| && AllComplete(s, dependencies[..i]) && IsComplete(t, dependencies[i])
    ensures AllComplete(t, dependencies[..i + 1])
  {
    assert dependencies[..i + 1] == dependencies[..i] + [dependencies[i]];
  }

  /** Entering, visiting below, and leaving is progress. */
  lemma LeaveProgresses(before: Search, app: SourceApp, entered: Search, s: Search, unit: AppBuildUnit)
    requires app !in before.visits && entered == Entered(Registered(before, app), app)
    requires Progressed(entered, s)
    requires unit.sourceApp == app
    ensures VisitedApp(before, app, Left(s, app, unit))
  {
    assert (before.stack + [app])[..|before.stack|] == before.stack;
  }

  // ---------- Planning ----------

  lemma {:induction false} OrderHoldsPaths(p: Program, order: seq<AppBuildUnit>, path: seq<SourceApp>)
    requires IsTopological(p, order) && IsPath(p, path) && HoldsApp(order, path[0])
    ensures HoldsApp(order, path[|path| - 1])
  {
    var k :| 0 <= k < |order| && order[k].sourceApp == path[0];
    var l := PathsGoDown(p, order, path, k);
  }

  /** A finished search has planned everything reachable. */
  lemma FinishedSearchIsPlan(p: Program, root: SourceApp, s: Search)
    requires Searching(p, root, s) && s.stack == [] && IsComplete(s, root)
    requires s.order != [] && s.order[|s.order| - 1].sourceApp == root
    ensures IsAppPlan(p, root, s.order)
  {
    forall a ensures HoldsApp(s.order, a) <==> Reachable(p, root, a) {
      if Reachable(p, root, a) {
        var path :| PathBetween(p, root, a, path);
        OrderHoldsPaths(p, s.order, path);
      }
    }
    forall k, l | 0 <= k < |s.order| && 0 <= l < |s.order| && s.order[k].sourceApp.app == s.order[l].sourceApp.app
      ensures s.order[k].sourceApp == s.order[l].sourceApp
    {
      assert HoldsApp(s.order, s.order[k].sourceApp) && HoldsApp(s.order, s.order[l].sourceApp);
    }
  }

  /** Order the apps below the selected one; this fails exactly when something reachable is at fault. */
  method PlanApps(program: Program, root: SourceApp) returns (r: Result<seq<AppBuildUnit>, PlanError>)
    ensures r.Ok? <==> Plannable(program, root)
    ensures r.Ok? ==> IsAppPlan(program, root, r.value)
    ensures r.Err? ==> IsRealFault(program, root, r.error)
  {
    var planner := new AppGraphPlanner(program);
    assert PathBetween(program, root, root, [root]);
    assert !exists a :: HoldsApp([], a);
    var fault := planner.VisitApp(root, root);
    if fault.Some? {
      FaultIsNotPlannable(program, root, fault.value);
      return Err(fault.value);
    }
    FinishedSearchIsPlan(program, root, planner.Value());
    PlannedIsPlannable(program, root, planner.order);
    return Ok(planner.order);
  }

  // ---------- Compiling in order ----------

  datatype BuildError =
    | NotCompiledFirst(app: string, dependency: string)
    | CompilationFailed(app: string, message: string)
    | OccursMoreThanOnce(app: string)

  function DependencyNames(unit: AppBuildUnit): set<string> {
    set d | d in unit.dependencies :: d.app
  }

  /** The artifacts a unit is linked with. */
  function Linked<A>(artifacts: map<string, A>, names: set<string>): map<string, A>
    requires names <= artifacts.Keys
  {
    map n | n in names :: artifacts[n]
  }

  ghost predicate Before(order: seq<AppBuildUnit>, k: nat, name: string)
    requires k <= |order|
  {
    exists l :: 0 <= l < k && order[l].sourceApp.app == name
  }

  /** The error names the first dependency without an artifact. */
  ghost predicate IsFirstMissing<A>(artifacts: map<string, A>, unit: AppBuildUnit, i: nat, e: BuildError) {
    && i < |unit.dependencies|
    && (forall j :: 0 <= j < i ==> unit.dependencies[j].app in artifacts)
    && unit.dependencies[i].app !in artifacts
    && e == NotCompiledFirst(unit.sourceApp.app, unit.dependencies[i].app)
  }

  method LinkDependencies<A>(artifacts: map<string, A>, unit: AppBuildUnit)
    returns (r: Result<map<string, A>, BuildError>)
    ensures r.Ok? <==> DependencyNames(unit) <= artifacts.Keys
    ensures r.Ok? ==> r.value == Linked(artifacts, DependencyNames(unit))
    ensures r.Err? ==> exists i: nat :: IsFirstMissing(artifacts, unit, i, r.error)
  {
    var linked: map<string, A> := map[];
    for i := 0 to |unit.dependencies|
      invariant forall n :: n in linked <==> exists j :: 0 <= j < i && unit.dependencies[j].app == n
      invariant forall n :: n in linked ==> n in artifacts && linked[n] == artifacts[n]
      invariant forall j :: 0 <= j < i ==> unit.dependencies[j].app in artifacts
    {
      var name := unit.dependencies[i].app;
      assert unit.dependencies[i] in unit.dependencies;
      assert name in DependencyNames(unit);
      if name !in artifacts {
        assert IsFirstMissing(artifacts, unit, i, NotCompiledFirst(unit.sourceApp.app, name));
        return Err(NotCompiledFirst(unit.sourceApp.app, name));
      }
      linked := linked[name := artifacts[name]];
    }
    assert linked.Keys == DependencyNames(unit);
    return Ok(linked);
  }

  /** Compiling an app from the artifacts of its dependencies, and reading the result, may fail. */
  type Compiler<!A> = (AppBuildUnit, map<string, A>) -> Result<A, string>

  /** Each unit's artifact is its compilation against the artifacts of its dependencies. */
  ghost predicate AreCompiled<A>(order: seq<AppBuildUnit>, k: nat, compile: Compiler<A>, artifacts: map<string, A>)
    requires k <= |order|
  {
    && (forall n :: n in artifacts <==> Before(order, k, n))
    && forall l :: 0 <= l < k ==>
      && DependencyNames(order[l]) <= artifacts.Keys
      && order[l].sourceApp.app in artifacts
      && compile(order[l], Linked(artifacts, DependencyNames(order[l]))) == Ok(artifacts[order[l].sourceApp.app])
  }

  lemma CompiledOneMore<A>(order: seq<AppBuildUnit>, k: nat, compile: Compiler<A>, artifacts: map<string, A>,
                           artifact: A)
    requires k < |order| && AreCompiled(order, k, compile, artifacts) && order[k].sourceApp.app !in artifacts
    requires DependencyNames(order[k]) <= artifacts.Keys
    requires compile(order[k], Linked(artifacts, DependencyNames(order[k]))) == Ok(artifact)
    ensures AreCompiled(order, k + 1, compile, artifacts[order[k].sourceApp.app := artifact])
  {
    var artifacts' := artifacts[order[k].sourceApp.app := artifact];
    forall n ensures n in artifacts' <==> Before(order, k + 1, n) {
      if Before(order, k, n) {
        var l :| 0 <= l < k && order[l].sourceApp.app == n;
        assert Before(order, k + 1, n);
      }
    }
    forall l | 0 <= l < k + 1
      ensures DependencyNames(order[l]) <= artifacts'.Keys
      ensures Linked(artifacts', DependencyNames(order[l])) == Linked(artifacts, DependencyNames(order[l]))
    {
      assert l < k ==> DependencyNames(order[l]) <= artifacts.Keys;
    }
  }

  /** Unit `k` is the first that fails, the units before it having the given artifacts; the error says why. */
  ghost predicate IsBuildFault<A>(order: seq<AppBuildUnit>, k: nat, compile: Compiler<A>, artifacts: map<string, A>,
                                  e: BuildError) {
    && k < |order| && AreCompiled(order, k, compile, artifacts)
    && (if DependencyNames(order[k]) <= artifacts.Keys then
          match compile(order[k], Linked(artifacts, DependencyNames(order[k])))
          case Err(message) => e == CompilationFailed(order[k].sourceApp.app, message)
          case Ok(_) => order[k].sourceApp.app in artifacts && e == OccursMoreThanOnce(order[k].sourceApp.app)
        else exists i: nat :: IsFirstMissing(artifacts, order[k], i, e))
  }

  /** Compile the units in order. On a plan only a compilation can fail: every dependency is there, and no name twice. */
  method BuildAppGraph<A>(order: seq<AppBuildUnit>, compile: Compiler<A>, ghost p: Program, ghost root: SourceApp)
    returns (r: Result<map<string, A>, BuildError>)
    ensures IsAppPlan(p, root, order) ==> r.Ok? || r.error.CompilationFailed?
    ensures r.Ok? ==> AreCompiled(order, |order|, compile, r.value)
    ensures r.Err? ==> exists k: nat, artifacts :: IsBuildFault(order, k, compile, artifacts, r.error)
  {
    var artifacts: map<string, A> := map[];
    for k := 0 to |order|
      invariant AreCompiled(order, k, compile, artifacts)
    {
      var unit := order[k];
      if IsAppPlan(p, root, order) {
        DependenciesAreBefore(p, root, order, k);
      }
      var linked := LinkDependencies(artifacts, unit);
      if linked.Err? {
        assert IsBuildFault(order, k, compile, artifacts, linked.error);
        return Err(linked.error);
      }
      match compile(unit, linked.value) {
        case Err(message) =>
          assert IsBuildFault(order, k, compile, artifacts, CompilationFailed(unit.sourceApp.app, message));
          return Err(CompilationFailed(unit.sourceApp.app, message));
        case Ok(artifact) =>
          if unit.sourceApp.app in artifacts {
            assert IsBuildFault(order, k, compile, artifacts, OccursMoreThanOnce(unit.sourceApp.app));
            return Err(OccursMoreThanOnce(unit.sourceApp.app));
          }
          CompiledOneMore(order, k, compile, artifacts, artifact);
          artifacts := artifacts[unit.sourceApp.app := artifact];
      }
    }
    return Ok(artifacts);
  }

  /** In a plan, a unit's dependencies come before it, and its own name does not. */
  lemma DependenciesAreBefore(p: Program, root: SourceApp, order: seq<AppBuildUnit>, k: nat)
    requires IsAppPlan(p, root, order) && k < |order|
    ensures forall n :: n in DependencyNames(order[k]) ==> Before(order, k, n)
    ensures !Before(order, k, order[k].sourceApp.app)
  {
    forall d | d in order[k].dependencies ensures Before(order, k, d.app) {
      assert HoldsApp(order[..k], d);
      var l :| 0 <= l < k && order[..k][l].sourceApp == d;
      assert order[l].sourceApp.app == d.app;
    }
  }

  /** Each app of a plan is compiled from exactly the artifacts of its dependencies, each compiled before it. */
  lemma CompiledFromDependencies<A>(p: Program, root: SourceApp, order: seq<AppBuildUnit>, compile: Compiler<A>,
                                    artifacts: map<string, A>, k: nat) returns (linked: map<string, A>)
    requires IsAppPlan(p, root, order) && AreCompiled(order, |order|, compile, artifacts) && k < |order|
    ensures order[k].sourceApp.app in artifacts
    ensures compile(order[k], linked) == Ok(artifacts[order[k].sourceApp.app])
    ensures forall n :: n in linked ==> exists d :: d in order[k].dependencies && d.app == n
    ensures forall d :: d in order[k].dependencies ==>
              && d.app in linked && d.app in artifacts && linked[d.app] == artifacts[d.app]
              && exists l :: 0 <= l < k && order[l].sourceApp == d
  {
    linked := Linked(artifacts, DependencyNames(order[k]));
    forall d | d in order[k].dependencies
      ensures d.app in linked && exists l :: 0 <= l < k && order[l].sourceApp == d
    {
      assert d.app in DependencyNames(order[k]);
      assert HoldsApp(order[..k], d);
      var l :| 0 <= l < k && order[..k][l].sourceApp == d;
      assert order[l].sourceApp == d;
    }
  }
}
