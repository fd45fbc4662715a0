/** Selector requirements: their validation, and the table prefix they impose on a component. */
module Selectors {
  import opened Wrappers
  import opened Ordering

  /** One requirement for an indexed route table. */
  datatype SelectorRequirement = SelectorRequirement(domain: Name, source: Name, variants: seq<Name>)

  /** Each domain's actors, in compiler order. */
  type Domains = map<Name, seq<Name>>

  datatype SelectorError =
    | UnknownSelectorDomain(selector: nat, domain: Name)
    | SelectorSourceOutsideDomain(selector: nat, domain: Name, source: Name)
    | SelectorTooSmall(selector: nat)
    | DuplicateSelectorVariant(selector: nat, actor: Name)
    | SelectorVariantOutsideDomain(selector: nat, domain: Name, actor: Name)
    | SelectorVariantOutsideComponent(selector: nat, domain: Name, source: Name, actor: Name)
    | ConflictingSelectors(selector: nat, first: nat, domain: Name, source: Name)

  // ---------- Validation against the domains ----------

  ghost predicate VariantsOk(actors: seq<Name>, variants: seq<Name>) {
    Distinct(variants) && forall a :: a in variants ==> a in actors
  }

  ghost predicate SelectorOk(domains: Domains, s: SelectorRequirement) {
    && s.domain in domains && s.source in domains[s.domain]
    && 2 <= |s.variants| && VariantsOk(domains[s.domain], s.variants)
  }

  ghost predicate SelectorsOk(domains: Domains, selectors: seq<SelectorRequirement>) {
    forall i :: 0 <= i < |selectors| ==> SelectorOk(domains, selectors[i])
  }

  /** Which selectors are accepted, by counting: the variants are as many different actors of the domain, two or more. */
  lemma SelectorOkExactly(domains: Domains, s: SelectorRequirement)
    ensures SelectorOk(domains, s) <==>
              && s.domain in domains && s.source in domains[s.domain]
              && Elements(s.variants) <= Elements(domains[s.domain])
              && 2 <= |Elements(s.variants)| == |s.variants|
  {
    DistinctSize(s.variants);
    assert forall a :: a in s.variants <==> a in Elements(s.variants);
    if s.domain in domains && Elements(s.variants) <= Elements(domains[s.domain]) {
      forall a | a in s.variants ensures a in domains[s.domain] {
        assert a in Elements(domains[s.domain]);
      }
    }
  }

  /** The first faulty variant, after variants that are fine. */
  ghost predicate StopsAtVariant(actors: seq<Name>, variants: seq<Name>, j: nat, actor: Name) {
    j < |variants| && variants[j] == actor && VariantsOk(actors, variants[..j])
  }

  /** The error names the first fault of the selector, in the order the faults are looked for. */
  ghost predicate IsFault(domains: Domains, s: SelectorRequirement, k: nat, e: SelectorError) {
    match e
    case UnknownSelectorDomain(i, d) => i == k && d == s.domain && d !in domains
    case SelectorSourceOutsideDomain(i, d, a) =>
      i == k && d == s.domain && a == s.source && d in domains && a !in domains[d]
    case SelectorTooSmall(i) => i == k && s.domain in domains && s.source in domains[s.domain] && |s.variants| < 2
    case DuplicateSelectorVariant(i, a) =>
      i == k && s.domain in domains && s.source in domains[s.domain] && 2 <= |s.variants|
      && exists j: nat :: StopsAtVariant(domains[s.domain], s.variants, j, a) && a in s.variants[..j]
    case SelectorVariantOutsideDomain(i, d, a) =>
      i == k && d == s.domain && d in domains && s.source in domains[d] && 2 <= |s.variants|
      && exists j: nat :: StopsAtVariant(domains[d], s.variants, j, a) && a !in s.variants[..j] && a !in domains[d]
    case _ => false
  }

  lemma FaultyIsNotOk(domains: Domains, s: SelectorRequirement, k: nat, e: SelectorError)
    requires IsFault(domains, s, k, e)
    ensures !SelectorOk(domains, s)
  {
    match e
    case DuplicateSelectorVariant(i, a) =>
      var j: nat :| StopsAtVariant(domains[s.domain], s.variants, j, a) && a in s.variants[..j];
      var h :| 0 <= h < j && s.variants[..j][h] == a;
      assert s.variants[h] == s.variants[j];
    case SelectorVariantOutsideDomain(i, d, a) =>
      assert a in s.variants;
    case _ =>
  }

  method ValidateVariants(domains: Domains, s: SelectorRequirement, k: nat) returns (fault: Option<SelectorError>)
    requires s.domain in domains && s.source in domains[s.domain] && 2 <= |s.variants|
    ensures fault.None? ==> VariantsOk(domains[s.domain], s.variants)
    ensures fault.Some? ==> IsFault(domains, s, k, fault.value)
  {
    var seen: set<Name> := {};
    for j := 0 to |s.variants|
      invariant VariantsOk(domains[s.domain], s.variants[..j])
      invariant forall a :: a in seen <==> a in s.variants[..j]
    {
      var actor := s.variants[j];
      assert s.variants[..j + 1] == s.variants[..j] + [actor];
      assert StopsAtVariant(domains[s.domain], s.variants, j, actor);
      if actor in seen {
        return Some(DuplicateSelectorVariant(k, actor));
      }
      seen := seen + {actor};
      if actor !in domains[s.domain] {
        return Some(SelectorVariantOutsideDomain(k, s.domain, actor));
      }
    }
    assert s.variants[..|s.variants|] == s.variants;
    return None;
  }

  /** Check every selector against its domain, stopping at the first fault. */
  method ValidateSelectorRequirements(domains: Domains, selectors: seq<SelectorRequirement>)
    returns (fault: Option<SelectorError>)
    ensures fault.None? <==> SelectorsOk(domains, selectors)
    ensures fault.Some? ==> exists k ::
      0 <= k < |selectors| && SelectorsOk(domains, selectors[..k]) && IsFault(domains, selectors[k], k, fault.value)
  {
    for k := 0 to |selectors|
      invariant SelectorsOk(domains, selectors[..k])
    {
      var s := selectors[k];
      fault := None;
      if s.domain !in domains {
        fault := Some(UnknownSelectorDomain(k, s.domain));
      } else if s.source !in domains[s.domain] {
        fault := Some(SelectorSourceOutsideDomain(k, s.domain, s.source));
      } else if |s.variants| < 2 {
        fault := Some(SelectorTooSmall(k));
      } else {
        fault := ValidateVariants(domains, s, k);
      }
      if fault.Some? {
        FaultyIsNotOk(domains, s, k, fault.value);
        return fault;
      }
    }
    assert selectors[..|selectors|] == selectors;
    return None;
  }

  // ---------- The prefix imposed on one component ----------

  predicate Applies(domain: Name, members: set<Name>, s: SelectorRequirement) {
    s.domain == domain && s.source in members
  }

  ghost predicate Within(members: set<Name>, variants: seq<Name>) {
    forall a :: a in variants ==> a in members
  }

  /** The selectors of a component stay inside it and agree on one order. */
  ghost predicate Agree(domain: Name, members: set<Name>, selectors: seq<SelectorRequirement>) {
    && (forall s :: s in selectors && Applies(domain, members, s) ==> Within(members, s.variants))
    && (forall s, t :: s in selectors && t in selectors && Applies(domain, members, s) && Applies(domain, members, t)
          ==> s.variants == t.variants)
  }

  /** The variants all of the component's selectors ask for, or nothing when it has none. */
  ghost predicate IsPrefix(domain: Name, members: set<Name>, selectors: seq<SelectorRequirement>,
                           prefix: Option<seq<Name>>) {
    match prefix
    case None => forall s :: s in selectors ==> !Applies(domain, members, s)
    case Some(variants) =>
      && (exists s :: s in selectors && Applies(domain, members, s))
      && (forall s :: s in selectors && Applies(domain, members, s) ==> s.variants == variants)
      && Within(members, variants)
  }

  /** The selectors of a component agree exactly when there is a prefix they all ask for. */
  lemma AgreeExactly(domain: Name, members: set<Name>, selectors: seq<SelectorRequirement>)
    ensures Agree(domain, members, selectors) <==> exists prefix :: IsPrefix(domain, members, selectors, prefix)
  {
    if Agree(domain, members, selectors) {
      if s :| s in selectors && Applies(domain, members, s) {
        assert IsPrefix(domain, members, selectors, Some(s.variants));
      } else {
        assert IsPrefix(domain, members, selectors, None);
      }
    }
  }

  ghost predicate IsFirstApplying(domain: Name, members: set<Name>, selectors: seq<SelectorRequirement>, first: nat) {
    first < |selectors| && Applies(domain, members, selectors[first])
    && forall i :: 0 <= i < first ==> !Applies(domain, members, selectors[i])
  }

  /** The earlier selectors of the component agree with its first one. */
  ghost predicate AgreeBefore(domain: Name, members: set<Name>, selectors: seq<SelectorRequirement>, first: nat, k: nat)
    requires first < |selectors| && k <= |selectors|
  {
    forall i :: 0 <= i < k && Applies(domain, members, selectors[i]) ==>
      Within(members, selectors[i].variants) && selectors[i].variants == selectors[first].variants
  }

  ghost predicate IsDisagreement(domain: Name, members: set<Name>, selectors: seq<SelectorRequirement>,
                                 e: SelectorError) {
    match e
    case SelectorVariantOutsideComponent(k, d, a, v) => exists first: nat ::
      && IsFirstApplying(domain, members, selectors, first) && k < |selectors|
      && AgreeBefore(domain, members, selectors, first, k)
      && Applies(domain, members, selectors[k]) && d == domain && a == selectors[k].source
      && exists j: nat :: j < |selectors[k].variants| && selectors[k].variants[j] == v && v !in members
           && Within(members, selectors[k].variants[..j])
    case ConflictingSelectors(k, first, d, a) =>
      && IsFirstApplying(domain, members, selectors, first) && k < |selectors|
      && AgreeBefore(domain, members, selectors, first, k)
      && Applies(domain, members, selectors[k]) && d == domain && a == selectors[k].source
      && Within(members, selectors[k].variants) && selectors[k].variants != selectors[first].variants
    case _ => false
  }

  method FindOutside(members: set<Name>, variants: seq<Name>) returns (outside: Option<nat>)
    ensures outside.None? <==> Within(members, variants)
    ensures outside.Some? ==>
      outside.value < |variants| && variants[outside.value] !in members && Within(members, variants[..outside.value])
  {
    for j := 0 to |variants|
      invariant Within(members, variants[..j])
    {
      assert variants[j] in variants;
      assert variants[..j + 1] == variants[..j] + [variants[j]];
      if variants[j] !in members {
        return Some(j);
      }
    }
    assert variants[..|variants|] == variants;
    return None;
  }

  /** The table prefix a component's selectors ask for. */
  method SelectorPrefixForComponent(domain: Name, members: set<Name>, selectors: seq<SelectorRequirement>)
    returns (r: Result<Option<seq<Name>>, SelectorError>)
    ensures r.Ok? <==> Agree(domain, members, selectors)
    ensures r.Ok? ==> IsPrefix(domain, members, selectors, r.value)
    ensures r.Err? ==> IsDisagreement(domain, members, selectors, r.error)
  {
    var first := 0;
    while first < |selectors| && !Applies(domain, members, selectors[first])
      invariant first <= |selectors|
      invariant forall i :: 0 <= i < first ==> !Applies(domain, members, selectors[i])
    {
      first := first + 1;
    }
    if first == |selectors| {
      return Ok(None);
    }
    for k := first to |selectors|
      invariant AgreeBefore(domain, members, selectors, first, k)
    {
      var s := selectors[k];
      assert s in selectors && selectors[first] in selectors;
      if Applies(domain, members, s) {
        var outside := FindOutside(members, s.variants);
        if outside.Some? {
          return Err(SelectorVariantOutsideComponent(k, domain, s.source, s.variants[outside.value]));
        }
        if s.variants != selectors[first].variants {
          return Err(ConflictingSelectors(k, first, domain, s.source));
        }
      }
    }
    assert selectors[first] in selectors && Applies(domain, members, selectors[first]);
    return Ok(Some(selectors[first].variants));
  }
}
