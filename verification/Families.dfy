/** Validating families and cohorts. */
module Families {
  import opened Wrappers
  import opened Ordering

  /** Ordered actor groups, each a branch of the forest. */
  type Families = seq<seq<Name>>

  /** Actor groups that share one cut. */
  type Cohorts = seq<set<Name>>

  datatype ConstraintError =
    | EmptyFamily(family: nat)
    | UnknownFamilyActor(family: nat, actor: Name)
    | DuplicateFamilyActor(family: nat, actor: Name)
    | OverlappingFamilyActor(actor: Name)
    | EmptyCohort(cohort: nat)
    | UnknownCohortActor(cohort: nat, actor: Name)
    | OverlappingCohortActor(actor: Name)

  // ---------- Families ----------

  /** Known actors without repetition, none of them in an earlier family. */
  ghost predicate Fits(actors: set<Name>, earlier: Families, family: seq<Name>) {
    && Distinct(family)
    && (forall a :: a in family ==> a in actors)
    && (forall a, k :: a in family && 0 <= k < |earlier| ==> a !in earlier[k])
  }

  /** Non-empty, pairwise disjoint families of distinct known actors. */
  ghost predicate FamiliesOk(actors: set<Name>, families: Families) {
    && (forall k :: 0 <= k < |families| ==> families[k] != [] && Distinct(families[k]))
    && (forall k, a :: 0 <= k < |families| && a in families[k] ==> a in actors)
    && (forall k, l, a :: 0 <= k < l < |families| && a in families[k] ==> a !in families[l])
  }

  /** The index of the family of every family actor. */
  ghost predicate IsFamilyIndex(families: Families, byActor: map<Name, nat>) {
    && (forall a :: a in byActor ==> byActor[a] < |families| && a in families[byActor[a]])
    && (forall k, a :: 0 <= k < |families| && a in families[k] ==> a in byActor && byActor[a] == k)
  }

  /** The scan reached position `j` of family `k`, holding `actor`, with everything before it fine. */
  ghost predicate ReachedFamilyActor(actors: set<Name>, families: Families, k: nat, j: nat, actor: Name) {
    && k < |families| && FamiliesOk(actors, families[..k])
    && j < |families[k]| && families[k][j] == actor
    && Fits(actors, families[..k], families[k][..j])
  }

  /** The error names the first thing wrong in scan order. */
  ghost predicate IsFirstFamilyError(actors: set<Name>, families: Families, e: ConstraintError) {
    match e
    case EmptyFamily(k) => k < |families| && FamiliesOk(actors, families[..k]) && families[k] == []
    case UnknownFamilyActor(k, a) => exists j: nat :: ReachedFamilyActor(actors, families, k, j, a) && a !in actors
    case DuplicateFamilyActor(k, a) => exists j: nat ::
      ReachedFamilyActor(actors, families, k, j, a) && a in actors && a in families[k][..j]
    case OverlappingFamilyActor(a) => exists k: nat, j: nat, l ::
      ReachedFamilyActor(actors, families, k, j, a) && a in actors && a !in families[k][..j] &&
      0 <= l < k && a in families[l]
    case _ => false
  }

  ghost predicate IndexedUpTo(families: Families, k: nat, j: nat, byActor: map<Name, nat>)
    requires k < |families| && j <= |families[k]|
  {
    && (forall a :: a in byActor ==>
         byActor[a] <= k && (if byActor[a] == k then a in families[k][..j] else a in families[byActor[a]]))
    && (forall l, a :: 0 <= l < k && a in families[l] ==> a in byActor && byActor[a] == l)
    && (forall a :: a in families[k][..j] ==> a in byActor && byActor[a] == k)
  }

  lemma FamilyOneMore(actors: set<Name>, families: Families, k: nat, j: nat, byActor: map<Name, nat>, actor: Name)
    requires k < |families| && j < |families[k]| && families[k][j] == actor
    requires Fits(actors, families[..k], families[k][..j]) && IndexedUpTo(families, k, j, byActor)
    requires actor in actors && actor !in families[k][..j] && actor !in byActor
    ensures Fits(actors, families[..k], families[k][..j + 1])
    ensures IndexedUpTo(families, k, j + 1, byActor[actor := k])
  {
    assert families[k][..j + 1] == families[k][..j] + [actor];
  }

  lemma FamilyIsDone(actors: set<Name>, families: Families, k: nat, byActor: map<Name, nat>)
    requires k < |families| && families[k] != [] && FamiliesOk(actors, families[..k])
    requires Fits(actors, families[..k], families[k]) && IndexedUpTo(families, k, |families[k]|, byActor)
    ensures FamiliesOk(actors, families[..k + 1]) && IsFamilyIndex(families[..k + 1], byActor)
  {
    var all := families[..k + 1];
    assert families[k][..|families[k]|] == families[k];
    assert forall l :: 0 <= l < k ==> all[l] == families[..k][l] == families[l];
    assert all[k] == families[k];
  }

  method ValidateFamily(actors: set<Name>, families: Families, k: nat, byActor: map<Name, nat>)
    returns (r: Result<map<Name, nat>, ConstraintError>)
    requires k < |families| && FamiliesOk(actors, families[..k]) && IsFamilyIndex(families[..k], byActor)
    ensures r.Ok? ==> FamiliesOk(actors, families[..k + 1]) && IsFamilyIndex(families[..k + 1], r.value)
    ensures r.Err? ==> IsFirstFamilyError(actors, families, r.error)
  {
    var family := families[k];
    if family == [] {
      return Err(EmptyFamily(k));
    }
    var index: map<Name, nat> := byActor;
    var members: set<Name> := {};
    assert forall l :: 0 <= l < k ==> families[..k][l] == families[l];
    for j := 0 to |family|
      invariant Fits(actors, families[..k], family[..j])
      invariant forall a :: a in members <==> a in family[..j]
      invariant IndexedUpTo(families, k, j, index)
    {
      var actor := family[j];
      assert ReachedFamilyActor(actors, families, k, j, actor);
      if actor !in actors {
        return Err(UnknownFamilyActor(k, actor));
      }
      if actor in members {
        return Err(DuplicateFamilyActor(k, actor));
      }
      members := members + {actor};
      if actor in index {
        assert actor in families[index[actor]];
        return Err(OverlappingFamilyActor(actor));
      }
      FamilyOneMore(actors, families, k, j, index, actor);
      assert family[..j + 1] == family[..j] + [actor];
      index := index[actor := k];
    }
    assert family[..|family|] == family;
    FamilyIsDone(actors, families, k, index);
    return Ok(index);
  }

  /** An error of the scan means the families are not all right. */
  lemma FirstFamilyErrorIsError(actors: set<Name>, families: Families, e: ConstraintError)
    requires IsFirstFamilyError(actors, families, e)
    ensures !FamiliesOk(actors, families)
  {
    match e
    case EmptyFamily(k) =>
    case UnknownFamilyActor(k, a) =>
      var j: nat :| ReachedFamilyActor(actors, families, k, j, a);
      assert a in families[k];
    case DuplicateFamilyActor(k, a) =>
      var j: nat :| ReachedFamilyActor(actors, families, k, j, a) && a in families[k][..j];
      var i :| 0 <= i < j && families[k][..j][i] == a;
      assert families[k][i] == families[k][j];
    case OverlappingFamilyActor(a) =>
      var k: nat, j: nat, l :| ReachedFamilyActor(actors, families, k, j, a) && 0 <= l < k && a in families[l];
      assert a in families[k];
  }

  /** Validate family membership and index every family actor. */
  method ValidateFamilies(actors: set<Name>, families: Families) returns (r: Result<map<Name, nat>, ConstraintError>)
    ensures r.Ok? <==> FamiliesOk(actors, families)
    ensures r.Ok? ==> IsFamilyIndex(families, r.value)
    ensures r.Err? ==> IsFirstFamilyError(actors, families, r.error)
  {
    var byActor: map<Name, nat> := map[];
    for k := 0 to |families|
      invariant FamiliesOk(actors, families[..k]) && IsFamilyIndex(families[..k], byActor)
    {
      var validated := ValidateFamily(actors, families, k, byActor);
      if validated.Err? {
        FirstFamilyErrorIsError(actors, families, validated.error);
        return validated;
      }
      byActor := validated.value;
    }
    assert families[..|families|] == families;
    return Ok(byActor);
  }

  // ---------- Cohorts ----------

  /** Non-empty, pairwise disjoint sets of known actors. */
  ghost predicate CohortsOk(actors: set<Name>, cohorts: Cohorts) {
    && (forall k :: 0 <= k < |cohorts| ==> cohorts[k] != {} && cohorts[k] <= actors)
    && (forall k, l :: 0 <= k < l < |cohorts| ==> cohorts[k] !! cohorts[l])
  }

  ghost predicate IsCohortIndex(cohorts: Cohorts, byActor: map<Name, nat>) {
    forall a, k :: 0 <= k < |cohorts| ==> (a in cohorts[k] <==> a in byActor && byActor[a] == k)
  }

  /** The scan reached `actor` in cohort `k`, with every cohort before it fine and
      every smaller actor of the cohort known and in no earlier cohort. */
  ghost predicate ReachedCohortActor(actors: set<Name>, cohorts: Cohorts, k: nat, actor: Name) {
    && k < |cohorts| && CohortsOk(actors, cohorts[..k]) && actor in cohorts[k]
    && forall b :: b in cohorts[k] && Before(Lexicographic, b, actor) ==> IsNewMember(actors, cohorts, k, b)
  }

  /** Known, and in none of the first `k` cohorts. */
  ghost predicate IsNewMember(actors: set<Name>, cohorts: Cohorts, k: nat, b: Name)
    requires k <= |cohorts|
  {
    b in actors && forall l :: 0 <= l < k ==> b !in cohorts[l]
  }

  ghost predicate IsFirstCohortError(actors: set<Name>, cohorts: Cohorts, e: ConstraintError) {
    match e
    case EmptyCohort(k) => k < |cohorts| && CohortsOk(actors, cohorts[..k]) && cohorts[k] == {}
    case UnknownCohortActor(k, a) => ReachedCohortActor(actors, cohorts, k, a) && a !in actors
    case OverlappingCohortActor(a) => a in actors && exists k: nat, l ::
      ReachedCohortActor(actors, cohorts, k, a) && 0 <= l < k && a in cohorts[l]
    case _ => false
  }

  method ValidateCohort(actors: set<Name>, cohorts: Cohorts, k: nat, byActor: map<Name, nat>)
    returns (r: Result<map<Name, nat>, ConstraintError>)
    requires k < |cohorts| && CohortsOk(actors, cohorts[..k])
    requires IsCohortIndex(cohorts[..k], byActor) && forall a :: a in byActor ==> byActor[a] < k
    ensures r.Ok? ==> CohortsOk(actors, cohorts[..k + 1]) && IsCohortIndex(cohorts[..k + 1], r.value)
    ensures r.Ok? ==> forall a :: a in r.value ==> r.value[a] < k + 1
    ensures r.Err? ==> IsFirstCohortError(actors, cohorts, r.error)
  {
    var cohort := cohorts[k];
    if cohort == {} {
      return Err(EmptyCohort(k));
    }
    var index: map<Name, nat> := byActor;
    var members := Sorted(Lexicographic, cohort);
    for j := 0 to |members|
      invariant forall a :: a in members[..j] ==> a in actors && a !in byActor
      invariant forall a :: a in index <==> a in byActor || a in members[..j]
      invariant forall a :: a in index ==> index[a] == if a in byActor then byActor[a] else k
    {
      var actor := members[j];
      assert actor in members && members[..j + 1] == members[..j] + [actor];
      CohortActorReached(actors, cohorts, k, byActor, members, j);
      if actor !in actors {
        return Err(UnknownCohortActor(k, actor));
      }
      if actor in index {
        assert members[..j][..] == members[..j];
        EarlierMembersDiffer(members, j);
        assert actor in byActor && actor in cohorts[..k][byActor[actor]];
        return Err(OverlappingCohortActor(actor));
      }
      index := index[actor := k];
    }
    assert members[..|members|] == members;
    CohortIndexed(actors, cohorts, k, byActor, index);
    return Ok(index);
  }

  lemma EarlierMembersDiffer(members: seq<Name>, j: nat)
    requires InOrder(Lexicographic, members) && j < |members|
    ensures members[j] !in members[..j]
  {
    forall i | 0 <= i < j ensures members[i] != members[j] { PositionFollowsOrder(Lexicographic, members, i, j); }
  }

  lemma CohortActorReached(actors: set<Name>, cohorts: Cohorts, k: nat, byActor: map<Name, nat>, members: seq<Name>,
                           j: nat)
    requires k < |cohorts| && CohortsOk(actors, cohorts[..k]) && IsCohortIndex(cohorts[..k], byActor)
    requires InOrder(Lexicographic, members) && (forall a :: a in members <==> a in cohorts[k]) && j < |members|
    requires forall a :: a in members[..j] ==> a in actors && a !in byActor
    ensures ReachedCohortActor(actors, cohorts, k, members[j])
  {
    assert members[j] in members;
    forall b | b in cohorts[k] && Before(Lexicographic, b, members[j]) ensures IsNewMember(actors, cohorts, k, b) {
      var i :| 0 <= i < |members| && members[i] == b;
      PositionFollowsOrder(Lexicographic, members, i, j);
      assert members[..j][i] == b;
      forall l | 0 <= l < k ensures b !in cohorts[l] {
        assert cohorts[..k][l] == cohorts[l];
      }
    }
  }

  lemma CohortIndexed(actors: set<Name>, cohorts: Cohorts, k: nat, byActor: map<Name, nat>, index: map<Name, nat>)
    requires k < |cohorts| && CohortsOk(actors, cohorts[..k]) && IsCohortIndex(cohorts[..k], byActor)
    requires forall a :: a in byActor ==> byActor[a] < k
    requires cohorts[k] != {} && forall a :: a in cohorts[k] ==> a in actors && a !in byActor
    requires forall a :: a in index <==> a in byActor || a in cohorts[k]
    requires forall a :: a in index ==> index[a] == if a in byActor then byActor[a] else k
    ensures CohortsOk(actors, cohorts[..k + 1]) && IsCohortIndex(cohorts[..k + 1], index)
  {
    var all := cohorts[..k + 1];
    assert all == cohorts[..k] + [cohorts[k]];
    CohortsOneMore(actors, cohorts[..k], cohorts[k]) by {
      forall l | 0 <= l < k ensures cohorts[..k][l] !! cohorts[k] {
        forall a | a in cohorts[..k][l] ensures a !in cohorts[k] { assert a in byActor; }
      }
    }
    IndexOneMore(cohorts[..k], cohorts[k], byActor, index);
  }

  lemma CohortsOneMore(actors: set<Name>, earlier: Cohorts, cohort: set<Name>)
    requires CohortsOk(actors, earlier) && cohort != {} && cohort <= actors
    requires forall l :: 0 <= l < |earlier| ==> earlier[l] !! cohort
    ensures CohortsOk(actors, earlier + [cohort])
  {
  }

  lemma IndexOneMore(earlier: Cohorts, cohort: set<Name>, byActor: map<Name, nat>, index: map<Name, nat>)
    requires IsCohortIndex(earlier, byActor) && forall a :: a in byActor ==> byActor[a] < |earlier|
    requires forall a :: a in cohort ==> a !in byActor
    requires forall a :: a in index <==> a in byActor || a in cohort
    requires forall a :: a in index ==> index[a] == if a in byActor then byActor[a] else |earlier|
    ensures IsCohortIndex(earlier + [cohort], index)
  {
    var all := earlier + [cohort];
    forall a, l | 0 <= l < |all| ensures a in all[l] <==> a in index && index[a] == l {
      if l < |earlier| {
        assert a in earlier[l] <==> a in byActor && byActor[a] == l;
      }
    }
  }

  lemma FirstCohortErrorIsError(actors: set<Name>, cohorts: Cohorts, e: ConstraintError)
    requires IsFirstCohortError(actors, cohorts, e)
    ensures !CohortsOk(actors, cohorts)
  {
    if e.OverlappingCohortActor? {
      var k: nat, l :| ReachedCohortActor(actors, cohorts, k, e.actor) && 0 <= l < k && e.actor in cohorts[l];
      assert e.actor in cohorts[l] * cohorts[k];
    }
  }

  /** Validate cohort membership and index every cohort actor. */
  method ValidateCohorts(actors: set<Name>, cohorts: Cohorts) returns (r: Result<map<Name, nat>, ConstraintError>)
    ensures r.Ok? <==> CohortsOk(actors, cohorts)
    ensures r.Ok? ==> IsCohortIndex(cohorts, r.value) && forall a :: a in r.value ==> r.value[a] < |cohorts|
    ensures r.Err? ==> IsFirstCohortError(actors, cohorts, r.error)
  {
    var byActor: map<Name, nat> := map[];
    for k := 0 to |cohorts|
      invariant CohortsOk(actors, cohorts[..k]) && IsCohortIndex(cohorts[..k], byActor)
      invariant forall a :: a in byActor ==> byActor[a] < k
    {
      var validated := ValidateCohort(actors, cohorts, k, byActor);
      if validated.Err? {
        FirstCohortErrorIsError(actors, cohorts, validated.error);
        return validated;
      }
      byActor := validated.value;
    }
    assert cohorts[..|cohorts|] == cohorts;
    return Ok(byActor);
  }
}
