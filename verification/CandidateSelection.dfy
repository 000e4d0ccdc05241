/**
 The choice among providers that the models.dev import makes for every model: a
 fold over the providers in sorted order that prefers non-zero prices, then
 clearly cheaper ones, where "clearly" is the non-transitive nearly-equal
 relation on prices, then smaller provider names.
 */
module CandidateSelection {
  import opened PriceDifferences

  datatype Option<+T> = None | Some(value: T)

  /** A decoded float64. */
  datatype Float = NaN | Infinite(negative: bool) | Finite(x: real)

  datatype Cost = Cost(input: Option<Float>, output: Option<Float>, cacheRead: Option<Float>)

  datatype Candidate = Candidate(provider: string, input: real, output: Option<real>, cacheRead: Option<real>)

  /** Provider names to their models' costs. */
  type Catalog = map<string, map<string, Cost>>

  predicate ValidCost(v: Float) {
    v.Finite? && v.x >= 0.0
  }

  /** An optional cost of a candidate as the catalog states it. */
  function Carried(c: Option<real>): Option<Float> { if c.Some? then Some(Finite(c.value)) else None }

  function BuildCandidate(provider: string, cost: Cost): (r: Option<Candidate>)
    ensures r.Some? <==>
              && cost.input.Some? && cost.input.value.Finite? && cost.input.value.x >= 0.0
              && (cost.output.Some? ==> cost.output.value.Finite? && cost.output.value.x >= 0.0)
              && !(cost.input.value.x == 0.0 && cost.output.Some? && cost.output.value.x > 0.0)
    ensures r.Some? ==> r.value.provider == provider
    ensures r.Some? ==> Finite(r.value.input) == cost.input.value && r.value.input >= 0.0
    ensures r.Some? ==> Carried(r.value.output) == cost.output
    ensures r.Some? ==>
              var read := cost.cacheRead;
              Carried(r.value.cacheRead) ==
                (if read.Some? && read.value.Finite? && read.value.x >= 0.0 then read else None)
  {
    if cost.input.None? || !ValidCost(cost.input.value) then None
    else if cost.output.Some? && !ValidCost(cost.output.value) then None
    else
      var output := if cost.output.Some? then Some(cost.output.value.x) else None;
      if cost.input.value.x == 0.0 && output.Some? && output.value > 0.0 then None
      else
        var cacheRead := if cost.cacheRead.Some? && ValidCost(cost.cacheRead.value) then Some(cost.cacheRead.value.x)
            else None;
        Some(Candidate(provider, cost.input.value.x, output, cacheRead))
  }

  /** Lexicographic order of strings. */
  predicate Less(a: string, b: string) {
    if b == [] then false
    else if a == [] then true
    else a[0] < b[0] || (a[0] == b[0] && Less(a[1..], b[1..]))
  }

  lemma {:induction false} LessIsAsymmetric(a: string, b: string)
    requires Less(a, b)
    ensures !Less(b, a)
  {
    if a != [] && a[0] == b[0] { LessIsAsymmetric(a[1..], b[1..]); }
  }

  function ShouldReplace(current: Candidate, next: Candidate): bool {
    var currentNonZero, nextNonZero := current.input > 0.0, next.input > 0.0;
    if currentNonZero != nextNonZero then nextNonZero
    else if nextNonZero && !NearlyEqual(next.input, current.input) then next.input < current.input
    else Less(next.provider, current.provider)
  }

  /** What a provider offers for a model. */
  function Offer(catalog: Catalog, provider: string, model: string): Option<Candidate> {
    if provider in catalog && model in catalog[provider] then BuildCandidate(provider, catalog[provider][model])
        else None
  }

  function Better(current: Option<Candidate>, offer: Option<Candidate>): Option<Candidate> {
    if offer.None? then current
    else if current.None? || ShouldReplace(current.value, offer.value) then offer
    else current
  }

  /** The candidate kept for a model after the providers have been visited in order. */
  function Choose(catalog: Catalog, providers: seq<string>, model: string): Option<Candidate> {
    if |providers| == 0 then None
    else Better(Choose(catalog, providers[..|providers| - 1], model), Offer(catalog, providers[|providers| - 1], model))
  }

  /** The result of sort.Strings on the distinct keys of a map. */
  predicate SortedNames(names: seq<string>) {
    forall i, j :: 0 <= i < j < |names| ==> Less(names[i], names[j])
  }

  predicate Records(selected: map<string, Candidate>, catalog: Catalog, providers: seq<string>, model: string) {
    Choose(catalog, providers, model) == if model in selected then Some(selected[model]) else None
  }

  lemma OneMoreProvider(catalog: Catalog, providers: seq<string>, i: nat)
    requires i < |providers|
    ensures forall model :: Choose(catalog, providers[..i + 1], model)
                         == Better(Choose(catalog, providers[..i], model), Offer(catalog, providers[i], model))
  {
    assert providers[..i + 1][..i] == providers[..i];
  }

  /** The selection loops. `providers` is the sorted list of the catalog's keys. */
  method SelectCandidates(catalog: Catalog, providers: seq<string>) returns (selected: map<string, Candidate>)
    requires forall p :: p in providers <==> p in catalog
    ensures forall model :: Records(selected, catalog, providers, model)
  {
    selected := map[];
    for i := 0 to |providers|
      invariant forall model :: Records(selected, catalog, providers[..i], model)
    {
      var provider := providers[i];
      assert provider in providers;
      var models := catalog[provider].Keys;
      ghost var before, after := providers[..i], providers[..i + 1];
      OneMoreProvider(catalog, providers, i);
      assert forall model :: model !in models ==>
               Offer(catalog, provider, model).None? && Records(selected, catalog, before, model);
      while models != {}
        invariant models <= catalog[provider].Keys
        invariant forall model :: model in models ==> Records(selected, catalog, before, model)
        invariant forall model :: model !in models ==> Records(selected, catalog, after, model)
        decreases models
      {
        var model :| model in models;
        var candidate := BuildCandidate(provider, catalog[provider][model]);
        if candidate.Some? {
          if model !in selected || ShouldReplace(selected[model], candidate.value) {
            selected := selected[model := candidate.value];
          }
        }
        models := models - {model};
      }
      forall model
        ensures Records(selected, catalog, after, model)
      {
        assert model !in models;
      }
    }
    assert providers[..|providers|] == providers;
  }

  // ---------------------------------------------------------------- what the choice guarantees

  ghost predicate Offered(catalog: Catalog, providers: seq<string>, model: string, c: Candidate) {
    exists p :: p in providers && Offer(catalog, p, model) == Some(c)
  }

  /** Nobody positive undercuts c by EPSILON or more, and c is positive if anybody is. */
  ghost predicate NearlyCheapest(catalog: Catalog, providers: seq<string>, model: string, c: Candidate) {
    forall x :: Offered(catalog, providers, model, x) && x.input > 0.0 ==>
      c.input > 0.0 && c.input < x.input + 0.000000001
  }

  /** The candidate with the current one, by price alone. */
  predicate ReplacedByPrice(current: Candidate, next: Candidate) {
    next.input > 0.0 && (current.input <= 0.0 || next.input <= current.input - EPSILON)
  }

  lemma {:induction false} ChosenWasOffered(catalog: Catalog, providers: seq<string>, model: string)
    ensures Choose(catalog, providers, model).Some? ==>
              Offered(catalog, providers, model, Choose(catalog, providers, model).value)
    ensures Choose(catalog, providers, model).None? ==> forall c :: !Offered(catalog, providers, model, c)
  {
    if |providers| != 0 {
      var init, last := providers[..|providers| - 1], providers[|providers| - 1];
      ChosenWasOffered(catalog, init, model);
      assert forall p :: p in providers <==> p in init || p == last;
      var before := Choose(catalog, init, model);
      if before.Some? {
        var p :| p in init && Offer(catalog, p, model) == before;
        assert p in providers;
      }
      forall c | Offered(catalog, providers, model, c) && Choose(catalog, providers, model).None?
        ensures false
      {
        var p :| p in providers && Offer(catalog, p, model) == Some(c);
        assert Offered(catalog, init, model, c);
      }
    }
  }

  /** Providers come in sorted order, so the name tie-break never replaces the current choice: a candidate
      is replaced on price alone. */
  lemma TieBreakNeverFires(catalog: Catalog, providers: seq<string>, i: nat, model: string)
    requires SortedNames(providers) && i < |providers|
    requires Choose(catalog, providers[..i], model).Some? && Offer(catalog, providers[i], model).Some?
    ensures var current, next := Choose(catalog, providers[..i], model).value,
              Offer(catalog, providers[i], model).value;
            !Less(next.provider, current.provider) && (ShouldReplace(current, next) <==> ReplacedByPrice(current, next))
  {
    ChosenWasOffered(catalog, providers[..i], model);
    var current := Choose(catalog, providers[..i], model).value;
    var p :| p in providers[..i] && Offer(catalog, p, model) == Some(current);
    assert Less(p, providers[i]);
    LessIsAsymmetric(p, providers[i]);
  }

  /** For every catalog the chosen candidate is positive if any valid one is, and its cost is below every
      valid positive cost plus EPSILON, although nearly-equal is not transitive. */
  lemma {:induction false} ChosenIsNearlyCheapest(catalog: Catalog, providers: seq<string>, model: string)
    requires SortedNames(providers)
    ensures Choose(catalog, providers, model).Some? ==>
              NearlyCheapest(catalog, providers, model, Choose(catalog, providers, model).value)
  {
    if |providers| != 0 {
      var n := |providers| - 1;
      var init, last := providers[..n], providers[n];
      ChosenIsNearlyCheapest(catalog, init, model);
      ChosenWasOffered(catalog, init, model);
      var before, offer := Choose(catalog, init, model), Offer(catalog, last, model);
      if before.Some? && offer.Some? { TieBreakNeverFires(catalog, providers, n, model); }
      forall x | Offered(catalog, providers, model, x) && x.input > 0.0 && Choose(catalog, providers, model).Some?
        ensures Choose(catalog, providers, model).value.input > 0.0
        ensures Choose(catalog, providers, model).value.input < x.input + EPSILON
      {
        var p :| p in providers && Offer(catalog, p, model) == Some(x);
        if p != last || p in init { assert Offered(catalog, init, model, x); }
      }
    }
  }

  /** In particular: when no other positive cost lies within EPSILON above the cheapest one, it is chosen. */
  lemma GapMakesItCheapest(catalog: Catalog, providers: seq<string>, model: string, least: Candidate)
    requires SortedNames(providers)
    requires Offered(catalog, providers, model, least) && least.input > 0.0
    requires forall x :: Offered(catalog, providers, model, x) && x.input > 0.0 ==>
               x.input == least.input || x.input >= least.input + EPSILON
    ensures Choose(catalog, providers, model).Some? && Choose(catalog, providers, model).value.input == least.input
  {
    ChosenWasOffered(catalog, providers, model);
    ChosenIsNearlyCheapest(catalog, providers, model);
  }

  /** `least` is the first cheapest of the positive offers, and provider k makes it. */
  ghost predicate FirstCheapest(catalog: Catalog, providers: seq<string>, model: string, k: nat, least: Candidate) {
    && k < |providers| && Offer(catalog, providers[k], model) == Some(least) && least.input > 0.0
    && (forall x :: Offered(catalog, providers, model, x) && x.input > 0.0 ==> least.input <= x.input)
    && (forall x :: Offered(catalog, providers[..k], model, x) && x.input > 0.0 ==> least.input < x.input)
  }

  /** What lies less than EPSILON above the cheapest offer is never replaced. */
  lemma {:induction false} NearTheCheapestStays(catalog: Catalog, providers: seq<string>, model: string, i: nat,
      least: real)
    requires SortedNames(providers) && i <= |providers| && Choose(catalog, providers[..i], model).Some?
    requires 0.0 < least <= Choose(catalog, providers[..i], model).value.input < least + EPSILON
    requires forall x :: Offered(catalog, providers, model, x) && x.input > 0.0 ==> least <= x.input
    ensures Choose(catalog, providers, model) == Choose(catalog, providers[..i], model)
    decreases |providers| - i
  {
    if i == |providers| {
      assert providers[..i] == providers;
    } else {
      OneMoreProvider(catalog, providers, i);
      var offer := Offer(catalog, providers[i], model);
      if offer.Some? {
        assert Offered(catalog, providers, model, offer.value);
        TieBreakNeverFires(catalog, providers, i, model);
      }
      NearTheCheapestStays(catalog, providers, model, i + 1, least);
    }
  }

  /** An earlier choice less than EPSILON dearer than the cheapest offer is kept, whatever comes later. */
  lemma CloseCostsKeepTheFirst(catalog: Catalog, providers: seq<string>, model: string, k: nat, least: Candidate)
    requires SortedNames(providers) && FirstCheapest(catalog, providers, model, k, least)
    requires var before := Choose(catalog, providers[..k], model);
             before.Some? && 0.0 < before.value.input < least.input + EPSILON
    ensures Choose(catalog, providers, model) == Choose(catalog, providers[..k], model)
    ensures Choose(catalog, providers, model).value.input > least.input
  {
    ChosenWasOffered(catalog, providers[..k], model);
    NearTheCheapestStays(catalog, providers, model, k, least.input);
  }

  /** The exact condition: a cheapest positive offer is chosen if and only if what was chosen before the
      first of them is nothing, not positive, or dearer by at least EPSILON. */
  lemma CheapestIsChosenIff(catalog: Catalog, providers: seq<string>, model: string, k: nat, least: Candidate)
    requires SortedNames(providers) && FirstCheapest(catalog, providers, model, k, least)
    ensures Choose(catalog, providers, model).Some?
    ensures var before := Choose(catalog, providers[..k], model);
            Choose(catalog, providers, model).value.input == least.input
            <==> before.None? || before.value.input <= 0.0 || before.value.input >= least.input + 0.000000001
  {
    var before := Choose(catalog, providers[..k], model);
    if before.Some? && 0.0 < before.value.input < least.input + EPSILON {
      CloseCostsKeepTheFirst(catalog, providers, model, k, least);
    } else {
      OneMoreProvider(catalog, providers, k);
      if before.Some? { TieBreakNeverFires(catalog, providers, k, model); }
      NearTheCheapestStays(catalog, providers, model, k + 1, least.input);
    }
  }

  /** Being within EPSILON of the cheapest is not enough: a still dearer offer keeps such a one out. */
  lemma DearerOfferSavesTheCheapest(catalog: Catalog, p: string, q: string, r: string, model: string,
                                    a: Candidate, b: Candidate, c: Candidate)
    requires SortedNames([p, q, r])
    requires Offer(catalog, p, model) == Some(a) && Offer(catalog, q, model) == Some(b) &&
               Offer(catalog, r, model) == Some(c)
    requires 0.0 < c.input < b.input < c.input + EPSILON && c.input + EPSILON <= a.input < b.input + EPSILON
    ensures Choose(catalog, [p, q, r], model) == Some(c)
  {
    var all := [p, q, r];
    assert all[..1] == [p] && all[..2] == [p, q] && all[..3] == all;
    OneMoreProvider(catalog, all, 0);
    OneMoreProvider(catalog, all, 1);
    OneMoreProvider(catalog, all, 2);
    assert Choose(catalog, all[..0], model) == None;
    TieBreakNeverFires(catalog, all, 1, model);
    TieBreakNeverFires(catalog, all, 2, model);
  }

  /** Nearly-equal is not transitive. */
  lemma NearlyEqualIsNotTransitive(a: real)
    ensures NearlyEqual(a, a + 0.6 * EPSILON) && NearlyEqual(a + 0.6 * EPSILON, a + 1.2 * EPSILON)
    ensures !NearlyEqual(a, a + 1.2 * EPSILON)
  {
  }
}
