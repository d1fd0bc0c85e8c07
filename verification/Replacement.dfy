/** What `replaceSigner` computes, as functions of its inputs, and what the
    resulting signer list is worth under the schema.

    Throughout, `available` is the set of trusted names not marked unavailable,
    with the lost key already marked. */
module Replacement {
  import opened Names
  import opened Patterns
  import opened Schemas

  /** Whether the pattern is or can be filled, and the key to add (the empty
      name when none is needed). */
  ghost function FindNewKey(existing: set<Name>, p: Pattern, available: set<Name>): (bool, Name) {
    var candidates := Matching(p, available) - existing;
    if |Matching(p, existing)| >= p.times then (true, [])
    else if candidates == {} then (false, [])
    else (true, Least(candidates))
  }

  /** The signer set after the required patterns that match the lost key have
      been revisited in order; None when one of them cannot be filled. */
  ghost function RepairRequired(ps: seq<Pattern>, lost: Name, start: set<Name>, available: set<Name>)
    : Option<set<Name>>
  {
    if ps == [] then Some(start) else
      match RepairRequired(ps[..|ps| - 1], lost, start, available)
      case None => None
      case Some(cur) =>
        var p := ps[|ps| - 1];
        var (found, key) := FindNewKey(cur, p, available);
        if !p.Matches(lost) then Some(cur)
        else if !found then None
        else if key == [] then Some(cur)
        else Some(cur + {key})
  }

  /** The key added for the first optional pattern that has room for one. */
  ghost function RepairOptional(ps: seq<Pattern>, cur: set<Name>, available: set<Name>): Option<Name> {
    if ps == [] then None else
      match RepairOptional(ps[..|ps| - 1], cur, available)
      case Some(key) => Some(key)
      case None =>
        var (found, key) := FindNewKey(cur, ps[|ps| - 1], available);
        if found && key != [] then Some(key) else None
  }

  ghost function With(s: set<Name>, key: Option<Name>): set<Name> {
    match key case None => s case Some(n) => s + {n}
  }

  /** The new signer list and the keys in it that were not in the old one. */
  ghost function Replace(schema: Schema, available: set<Name>, signers: seq<Name>, lost: Name): (seq<Name>, seq<Name>) {
    var start := Elements(signers) - {lost};
    match RepairRequired(schema.required, lost, start, available)
    case None => ([], [])
    case Some(cur) =>
      var end := With(cur, RepairOptional(schema.optional, cur, available));
      (Listed(end), Listed(end - start))
  }

  // ----- The required patterns -----

  lemma {:induction false} RequiredRange(ps: seq<Pattern>, lost: Name, start: set<Name>, available: set<Name>)
    ensures var r := RepairRequired(ps, lost, start, available);
            r.Some? ==> start <= r.value <= start + available
  {
    if ps != [] { RequiredRange(ps[..|ps| - 1], lost, start, available); }
  }

  /** The empty name never hides a needed repair of a required pattern: a pattern
      it could fill matches no other name, so it would have to be the lost key. */
  lemma RequiredKeyNotEmpty(p: Pattern, lost: Name, cur: set<Name>, available: set<Name>)
    requires p.Matches(lost) && lost !in available
    requires |Matching(p, cur)| < p.times && FindNewKey(cur, p, available).0
    ensures FindNewKey(cur, p, available).1 != []
    ensures FindNewKey(cur, p, available).1 in Matching(p, available) - cur
  {
    var key := FindNewKey(cur, p, available).1;
    assert key in Matching(p, available) - cur;
    assert |key| == |lost| && (|lost| == 0 ==> key == lost);
  }

  lemma AddMatching(p: Pattern, s: set<Name>, n: Name)
    requires n !in s
    ensures |Matching(p, s + {n})| == |Matching(p, s)| + if p.Matches(n) then 1 else 0
  {
    if p.Matches(n) {
      assert Matching(p, s + {n}) == Matching(p, s) + {n};
    } else {
      assert Matching(p, s + {n}) == Matching(p, s);
    }
  }

  /** A pattern the old list filled is filled again after the repair, although
      each pattern gets at most one new key and one key may serve several. */
  lemma {:induction false} RequiredRefilled(ps: seq<Pattern>, lost: Name, start: set<Name>, available: set<Name>, p: Pattern)
    requires lost !in start && lost !in available && p in ps && p.Matches(lost)
    requires |Matching(p, start + {lost})| >= p.times
    ensures var r := RepairRequired(ps, lost, start, available); r.Some? ==> |Matching(p, r.value)| >= p.times
  {
    var init, last := ps[..|ps| - 1], ps[|ps| - 1];
    var before := RepairRequired(init, lost, start, available);
    var r := RepairRequired(ps, lost, start, available);
    if r.Some? {
      RequiredRange(init, lost, start, available);
      if last == p {
        AddMatching(p, start, lost);
        MatchingMono(p, start, before.value);
        if |Matching(p, before.value)| < p.times {
          RequiredKeyNotEmpty(p, lost, before.value, available);
          AddMatching(p, before.value, FindNewKey(before.value, p, available).1);
        }
      } else {
        RequiredRefilled(init, lost, start, available, p);
        MatchingMono(p, before.value, r.value);
      }
    }
  }

  /** A pattern for which nothing new is available matches no new name. */
  lemma NothingNew(p: Pattern, cur: set<Name>, available: set<Name>)
    requires Matching(p, available) - cur == {}
    ensures Matching(p, cur + available) == Matching(p, cur)
  {
    forall n | n in Matching(p, cur + available) ensures n in Matching(p, cur) {
      assert n in Matching(p, available) - cur || n in cur;
    }
  }

  ghost predicate Unfillable(p: Pattern, lost: Name, start: set<Name>, available: set<Name>) {
    p.Matches(lost) && |Matching(p, start + available)| < p.times
  }

  lemma {:induction false} RequiredFails(ps: seq<Pattern>, lost: Name, start: set<Name>, available: set<Name>)
    requires RepairRequired(ps, lost, start, available).None?
    ensures exists p :: p in ps && Unfillable(p, lost, start, available)
  {
    var init, last := ps[..|ps| - 1], ps[|ps| - 1];
    match RepairRequired(init, lost, start, available) {
      case None => RequiredFails(init, lost, start, available);
      case Some(cur) =>
        RequiredRange(init, lost, start, available);
        NothingNew(last, cur, available);
        MatchingMono(last, start + available, cur + available);
        assert Unfillable(last, lost, start, available);
    }
  }

  /** The required repair fails exactly when some pattern matching the lost key
      cannot be filled even with every kept and every available name. */
  lemma RequiredFailsIff(schema: Schema, lost: Name, start: set<Name>, available: set<Name>)
    requires lost !in start && lost !in available && MeetsRequired(schema, start + {lost})
    ensures RepairRequired(schema.required, lost, start, available).None?
       <==> exists p :: p in schema.required && Unfillable(p, lost, start, available)
  {
    var r := RepairRequired(schema.required, lost, start, available);
    if r.None? {
      RequiredFails(schema.required, lost, start, available);
    } else if p :| p in schema.required && Unfillable(p, lost, start, available) {
      RequiredRefilled(schema.required, lost, start, available, p);
      RequiredRange(schema.required, lost, start, available);
      MatchingMono(p, r.value, start + available);
      assert false;
    }
  }

  // ----- The optional patterns -----

  /** How much one more name raises the capped total. */
  ghost function Gain(ps: seq<Pattern>, s: set<Name>, n: Name): nat {
    if ps == [] then 0 else
      var p := ps[|ps| - 1];
      Gain(ps[..|ps| - 1], s, n) + if p.Matches(n) && |Matching(p, s)| < p.times then 1 else 0
  }

  lemma {:induction false} GainIsExact(ps: seq<Pattern>, s: set<Name>, n: Name)
    requires n !in s
    ensures CappedTotal(ps, s + {n}) == CappedTotal(ps, s) + Gain(ps, s, n)
  {
    if ps != [] {
      GainIsExact(ps[..|ps| - 1], s, n);
      AddMatching(ps[|ps| - 1], s, n);
    }
  }

  /** No two patterns of the list match this name. */
  ghost predicate AtMostOne(ps: seq<Pattern>, n: Name) {
    forall i, j :: 0 <= i < j < |ps| ==> !(ps[i].Matches(n) && ps[j].Matches(n))
  }

  lemma {:induction false} GainAtMostOne(ps: seq<Pattern>, s: set<Name>, n: Name)
    requires AtMostOne(ps, n)
    ensures Gain(ps, s, n) <= 1
    ensures Gain(ps, s, n) == 1 ==> exists p :: p in ps && p.Matches(n)
  {
    if ps != [] {
      var init := ps[..|ps| - 1];
      GainAtMostOne(init, s, n);
      if Gain(init, s, n) == 1 {
        var p :| p in init && p.Matches(n);
        assert p in ps;
      }
    }
  }

  lemma {:induction false} GainPositive(ps: seq<Pattern>, s: set<Name>, n: Name, p: Pattern)
    requires p in ps && p.Matches(n) && |Matching(p, s)| < p.times
    ensures Gain(ps, s, n) >= 1
  {
    if ps[|ps| - 1] != p { GainPositive(ps[..|ps| - 1], s, n, p); }
  }

  /** An added optional key is new, available, and raises the capped total. */
  lemma {:induction false} OptionalAdds(ps: seq<Pattern>, cur: set<Name>, available: set<Name>)
    ensures var r := RepairOptional(ps, cur, available);
            r.Some? ==> r.value != [] && r.value in available - cur && Gain(ps, cur, r.value) >= 1
  {
    if ps != [] {
      OptionalAdds(ps[..|ps| - 1], cur, available);
      var r := RepairOptional(ps, cur, available);
      if r.Some? && RepairOptional(ps[..|ps| - 1], cur, available).None? {
        var p := ps[|ps| - 1];
        assert r.value in Matching(p, available) - cur;
        GainPositive(ps, cur, r.value, p);
      }
    }
  }

  /** When no optional key is added, no choice of available names does better. */
  lemma {:induction false} OptionalMaximal(ps: seq<Pattern>, cur: set<Name>, available: set<Name>)
    requires [] !in available && RepairOptional(ps, cur, available).None?
    ensures CappedTotal(ps, cur) == CappedTotal(ps, cur + available)
  {
    if ps != [] {
      var p := ps[|ps| - 1];
      OptionalMaximal(ps[..|ps| - 1], cur, available);
      MatchingMono(p, cur, cur + available);
      if |Matching(p, cur)| < p.times {
        NothingNew(p, cur, available);
      }
    }
  }

  // ----- The whole replacement -----

  /** Conservation: the new list is the old one without the lost key plus the
      returned keys, which are available and were not in it. */
  lemma ReplaceConserves(schema: Schema, available: set<Name>, signers: seq<Name>, lost: Name)
    requires lost !in available
    ensures var (list, added) := Replace(schema, available, signers, lost);
            && NoDup(list) && NoDup(added)
            && lost !in list && lost !in added
            && Elements(added) <= available
            && Elements(added) !! Elements(signers)
            && (list != [] ==> Elements(list) == Elements(signers) - {lost} + Elements(added))
            && (list != [] && NoDup(signers) && lost in signers ==> |list| == |signers| - 1 + |added|)
            && (list == [] ==> added == [])
  {
    var start := Elements(signers) - {lost};
    var r := RepairRequired(schema.required, lost, start, available);
    if r.Some? {
      RequiredRange(schema.required, lost, start, available);
      OptionalAdds(schema.optional, r.value, available);
      var end := With(r.value, RepairOptional(schema.optional, r.value, available));
      SetsConserve(Elements(signers), lost, start, end, available);
      InListed(end);
      InListed(end - start);
      if NoDup(signers) { NoDupSize(signers); }
    }
  }

  lemma InListed(s: set<Name>)
    ensures forall n :: n in Listed(s) <==> n in s
    ensures Listed(s) == [] <==> s == {}
  {
    assert forall n :: n in Elements(Listed(s)) <==> n in Listed(s);
    EmptyElements(Listed(s));
  }

  lemma SetsConserve(before: set<Name>, lost: Name, start: set<Name>, end: set<Name>, available: set<Name>)
    requires lost !in available && start == before - {lost} && start <= end <= start + available
    ensures lost !in end && end - start <= available && (end - start) !! before
    ensures end == start + (end - start)
    ensures lost in before ==> |end| == |before| - 1 + |end - start|
  {
    assert end == start + (end - start);
    assert |end| == |start| + |end - start|;
    if lost in before { assert before == start + {lost}; }
  }

  /** Every required pattern the old list filled, the new list fills. */
  lemma ReplaceKeepsRequired(schema: Schema, available: set<Name>, signers: seq<Name>, lost: Name)
    requires lost !in available && MeetsRequired(schema, Elements(signers))
    ensures var list := Replace(schema, available, signers, lost).0;
            list != [] ==> MeetsRequired(schema, Elements(list))
  {
    var list := Replace(schema, available, signers, lost).0;
    if list != [] {
      ReplaceConserves(schema, available, signers, lost);
      forall p | p in schema.required ensures |Matching(p, Elements(list))| >= p.times {
        ReplaceKeepsPattern(schema, available, signers, lost, p);
      }
    }
  }

  lemma ReplaceKeepsPattern(schema: Schema, available: set<Name>, signers: seq<Name>, lost: Name, p: Pattern)
    requires lost !in available && p in schema.required && |Matching(p, Elements(signers))| >= p.times
    requires Replace(schema, available, signers, lost).0 != []
    ensures |Matching(p, Elements(Replace(schema, available, signers, lost).0))| >= p.times
  {
    var list := Replace(schema, available, signers, lost).0;
    var start := Elements(signers) - {lost};
    var cur := RepairRequired(schema.required, lost, start, available).value;
    RequiredRange(schema.required, lost, start, available);
    MatchingMono(p, cur, Elements(list));
    if p.Matches(lost) {
      MatchingMono(p, Elements(signers), start + {lost});
      RequiredRefilled(schema.required, lost, start, available, p);
    } else {
      assert Matching(p, Elements(signers)) == Matching(p, start);
      MatchingMono(p, start, cur);
    }
  }

  /** The lost key was alone, nobody is required, and no available name counts for an
      optional pattern. */
  ghost predicate NobodyLeft(schema: Schema, available: set<Name>, signers: seq<Name>, lost: Name) {
    && Elements(signers) <= {lost}
    && (forall p :: p in schema.required ==> p.times == 0)
    && CappedTotal(schema.optional, available) == 0
  }

  /** Exactly when a list that met the required part is given up: some required pattern
      matching the lost key cannot be filled even with every kept and every available
      name, or nobody is left. */
  lemma ReplaceFailsIff(schema: Schema, available: set<Name>, signers: seq<Name>, lost: Name)
    requires lost !in available && [] !in available && MeetsRequired(schema, Elements(signers))
    ensures Replace(schema, available, signers, lost).0 == []
       <==> (exists p :: p in schema.required && Unfillable(p, lost, Elements(signers) - {lost}, available))
            || NobodyLeft(schema, available, signers, lost)
  {
    var start := Elements(signers) - {lost};
    MeetsRequiredMono(schema, Elements(signers), start + {lost});
    RequiredFailsIff(schema, lost, start, available);
    var r := RepairRequired(schema.required, lost, start, available);
    if r.Some? { EmptyIffNobody(schema, available, signers, lost, start, r.value); }
  }

  lemma MeetsRequiredMono(schema: Schema, a: set<Name>, b: set<Name>)
    requires a <= b && MeetsRequired(schema, a)
    ensures MeetsRequired(schema, b)
  {
    forall p | p in schema.required ensures |Matching(p, b)| >= p.times { MatchingMono(p, a, b); }
  }

  lemma EmptyIffNobody(schema: Schema, available: set<Name>, signers: seq<Name>, lost: Name,
                       start: set<Name>, cur: set<Name>)
    requires lost !in available && [] !in available && MeetsRequired(schema, Elements(signers))
    requires start == Elements(signers) - {lost}
    requires RepairRequired(schema.required, lost, start, available) == Some(cur)
    ensures Listed(With(cur, RepairOptional(schema.optional, cur, available))) == []
       <==> NobodyLeft(schema, available, signers, lost)
  {
    var added := RepairOptional(schema.optional, cur, available);
    InListed(With(cur, added));
    RequiredRange(schema.required, lost, start, available);
    if With(cur, added) == {} {
      assert cur == {} && added.None? && start == {};
      EmptyMeansNobody(schema, available, signers, lost);
    }
    if NobodyLeft(schema, available, signers, lost) {
      assert start == {};
      NobodyMeansEmpty(schema, available, signers, lost);
    }
  }

  lemma EmptyMeansNobody(schema: Schema, available: set<Name>, signers: seq<Name>, lost: Name)
    requires lost !in available && [] !in available && MeetsRequired(schema, Elements(signers))
    requires Elements(signers) <= {lost} && RepairRequired(schema.required, lost, {}, available) == Some({})
    requires RepairOptional(schema.optional, {}, available).None?
    ensures NobodyLeft(schema, available, signers, lost)
  {
    forall p | p in schema.required ensures p.times == 0 {
      assert Matching(p, {}) == {};
      if p.Matches(lost) {
        MatchingMono(p, Elements(signers), {} + {lost});
        RequiredRefilled(schema.required, lost, {}, available, p);
      } else {
        assert Matching(p, Elements(signers)) == {};
      }
    }
    OptionalMaximal(schema.optional, {}, available);
    assert {} + available == available;
    EmptyTotal(schema.optional);
  }

  lemma NobodyMeansEmpty(schema: Schema, available: set<Name>, signers: seq<Name>, lost: Name)
    requires lost !in available && NobodyLeft(schema, available, signers, lost)
    ensures RepairRequired(schema.required, lost, {}, available) == Some({})
    ensures RepairOptional(schema.optional, {}, available).None?
  {
    NothingRequired(schema.required, lost, available);
    OptionalAdds(schema.optional, {}, available);
    var r := RepairOptional(schema.optional, {}, available);
    if r.Some? {
      GainIsExact(schema.optional, {}, r.value);
      CappedTotalMono(schema.optional, {} + {r.value}, available);
    }
  }

  lemma {:induction false} NothingRequired(ps: seq<Pattern>, lost: Name, available: set<Name>)
    requires forall p :: p in ps ==> p.times == 0
    ensures RepairRequired(ps, lost, {}, available) == Some({})
  {
    if ps != [] {
      NothingRequired(ps[..|ps| - 1], lost, available);
      assert ps[|ps| - 1] in ps;
    }
  }

  lemma {:induction false} EmptyTotal(ps: seq<Pattern>)
    ensures CappedTotal(ps, {}) == 0
  {
    if ps != [] {
      EmptyTotal(ps[..|ps| - 1]);
      assert Matching(ps[|ps| - 1], {}) == {};
    }
  }

  /** Failure is never premature: with a schema that asks for somebody, a list that
      met the required part is given up only when nothing available can pass. */
  lemma ReplaceFailsOnlyIfInfeasible(schema: Schema, available: set<Name>, signers: seq<Name>, lost: Name)
    requires lost !in available && [] !in available
    requires MeetsRequired(schema, Elements(signers)) && !Passes(schema, [])
    requires Replace(schema, available, signers, lost).0 == []
    ensures !Feasible(schema, available)
  {
    var start := Elements(signers) - {lost};
    FeasibleIsSatisfies(schema, available);
    ReplaceFailsIff(schema, available, signers, lost);
    if p :| p in schema.required && Unfillable(p, lost, start, available) {
      MatchingMono(p, available, start + available);
    } else {
      PassesIsSatisfies(schema, []);
      assert Elements([]) == {};
      EmptyTotal(schema.optional);
    }
  }

  /** The capped total the single optional addition contributes. */
  ghost function OptionalGain(schema: Schema, cur: set<Name>, available: set<Name>): nat {
    match RepairOptional(schema.optional, cur, available)
    case None => 0
    case Some(n) => Gain(schema.optional, cur, n)
  }

  /** Exactly when the new list passes: the capped total left after the required
      repair, plus what one optional key gains, reaches the threshold. */
  lemma ReplacePassesIff(schema: Schema, available: set<Name>, signers: seq<Name>, lost: Name)
    requires lost !in available && MeetsRequired(schema, Elements(signers))
    requires Replace(schema, available, signers, lost).0 != []
    ensures var cur := RepairRequired(schema.required, lost, Elements(signers) - {lost}, available).value;
            && CappedTotal(schema.optional, Elements(Replace(schema, available, signers, lost).0))
               == CappedTotal(schema.optional, cur) + OptionalGain(schema, cur, available)
            && (Passes(schema, Replace(schema, available, signers, lost).0) <==>
                CappedTotal(schema.optional, cur) + OptionalGain(schema, cur, available) >= schema.minOptional)
  {
    var list := Replace(schema, available, signers, lost).0;
    var cur := RepairRequired(schema.required, lost, Elements(signers) - {lost}, available).value;
    OptionalAdds(schema.optional, cur, available);
    var r := RepairOptional(schema.optional, cur, available);
    if r.Some? { GainIsExact(schema.optional, cur, r.value); }
    ReplaceKeepsRequired(schema, available, signers, lost);
    PassesIsSatisfies(schema, list);
  }

  /** The optional repair makes progress or is maximal: it raises the capped total,
      or no list of available names has a larger one, and then the result passes
      whenever the schema is feasible. */
  lemma ReplaceMaximal(schema: Schema, available: set<Name>, signers: seq<Name>, lost: Name)
    requires lost !in available && [] !in available && MeetsRequired(schema, Elements(signers))
    requires Replace(schema, available, signers, lost).0 != []
    ensures var cur := RepairRequired(schema.required, lost, Elements(signers) - {lost}, available).value;
            var list := Replace(schema, available, signers, lost).0;
            || CappedTotal(schema.optional, Elements(list)) > CappedTotal(schema.optional, cur)
            || ((forall s :: NoDup(s) && Elements(s) <= available ==>
                   CappedTotal(schema.optional, Elements(s)) <= CappedTotal(schema.optional, Elements(list)))
                && (Feasible(schema, available) ==> Passes(schema, list)))
  {
    var list := Replace(schema, available, signers, lost).0;
    var cur := RepairRequired(schema.required, lost, Elements(signers) - {lost}, available).value;
    ReplacePassesIff(schema, available, signers, lost);
    OptionalAdds(schema.optional, cur, available);
    if RepairOptional(schema.optional, cur, available).None? {
      OptionalMaximal(schema.optional, cur, available);
      forall s | NoDup(s) && Elements(s) <= available
        ensures CappedTotal(schema.optional, Elements(s)) <= CappedTotal(schema.optional, Elements(list))
      {
        CappedTotalMono(schema.optional, Elements(s), cur + available);
      }
      FeasibleIsSatisfies(schema, available);
      CappedTotalMono(schema.optional, available, cur + available);
    }
  }

  // ----- When the new list passes -----

  /** The list meets the required part and, without the lost key, is at most one
      short of the optional threshold. */
  ghost predicate AtMostOneShort(schema: Schema, signers: seq<Name>, lost: Name) {
    && MeetsRequired(schema, Elements(signers))
    && CappedTotal(schema.optional, Elements(signers) - {lost}) + 1 >= schema.minOptional
  }

  /** Replacing one signer of a list that is at most one short without it: the new
      list passes exactly when it would with every available name added to it. So it
      passes, or the schema can no longer be passed. */
  lemma ReplaceKeepsPassing(schema: Schema, available: set<Name>, signers: seq<Name>, lost: Name)
    requires lost !in available && [] !in available && AtMostOneShort(schema, signers, lost)
    requires Replace(schema, available, signers, lost).0 != []
    ensures var list := Replace(schema, available, signers, lost).0;
            && (Passes(schema, list) <==> Satisfies(schema, Elements(list) + available))
            && (Passes(schema, list) || !Feasible(schema, available))
  {
    var list := Replace(schema, available, signers, lost).0;
    var start := Elements(signers) - {lost};
    var cur := RepairRequired(schema.required, lost, start, available).value;
    RequiredRange(schema.required, lost, start, available);
    CappedTotalMono(schema.optional, start, cur);
    ReplaceFallsShortIff(schema, available, signers, lost);
    OptionalAdds(schema.optional, cur, available);
    if RepairOptional(schema.optional, cur, available).None? {
      OptionalMaximal(schema.optional, cur, available);
    }
    WithAvailable(schema, list, available);
  }

  /** A passing list satisfies the schema, and so does every larger set. */
  lemma WithAvailable(schema: Schema, list: seq<Name>, available: set<Name>)
    requires NoDup(list)
    ensures Passes(schema, list) ==> Satisfies(schema, Elements(list) + available)
    ensures Feasible(schema, available) ==> Satisfies(schema, Elements(list) + available)
  {
    PassesIsSatisfies(schema, list);
    FeasibleIsSatisfies(schema, available);
    if Passes(schema, list) { SatisfiesMono(schema, Elements(list), Elements(list) + available); }
    if Feasible(schema, available) { SatisfiesMono(schema, available, Elements(list) + available); }
  }

  /** The threshold lies above what the repair reaches with its one optional key, but
      not above what all the available names reach. */
  ghost predicate FallsShort(schema: Schema, start: set<Name>, available: set<Name>, lost: Name) {
    match RepairRequired(schema.required, lost, start, available)
    case None => false
    case Some(cur) =>
      && CappedTotal(schema.optional, cur) + OptionalGain(schema, cur, available) < schema.minOptional
      && schema.minOptional <= CappedTotal(schema.optional, cur + available)
  }

  lemma ReplacedRange(schema: Schema, available: set<Name>, signers: seq<Name>, lost: Name)
    requires Replace(schema, available, signers, lost).0 != []
    ensures var cur := RepairRequired(schema.required, lost, Elements(signers) - {lost}, available).value;
            var list := Replace(schema, available, signers, lost).0;
            NoDup(list) && Elements(list) + available == cur + available
  {
    var cur := RepairRequired(schema.required, lost, Elements(signers) - {lost}, available).value;
    OptionalAdds(schema.optional, cur, available);
  }

  /** Exactly when a replacement gives a failing list although the available names
      could complete it. */
  lemma ReplaceFallsShortIff(schema: Schema, available: set<Name>, signers: seq<Name>, lost: Name)
    requires lost !in available && MeetsRequired(schema, Elements(signers))
    requires Replace(schema, available, signers, lost).0 != []
    ensures var list := Replace(schema, available, signers, lost).0;
            && NoDup(list)
            && (!Passes(schema, list) && Satisfies(schema, Elements(list) + available) <==>
                FallsShort(schema, Elements(signers) - {lost}, available, lost))
  {
    var list := Replace(schema, available, signers, lost).0;
    var cur := RepairRequired(schema.required, lost, Elements(signers) - {lost}, available).value;
    ReplacePassesIff(schema, available, signers, lost);
    ReplaceKeepsRequired(schema, available, signers, lost);
    ReplacedRange(schema, available, signers, lost);
    MeetsRequiredMono(schema, Elements(list), Elements(list) + available);
  }

  /** The required repair leaves the list alone when the lost key has no required role. */
  lemma {:induction false} NoRequiredRole(ps: seq<Pattern>, lost: Name, start: set<Name>, available: set<Name>)
    requires forall p :: p in ps ==> !p.Matches(lost)
    ensures RepairRequired(ps, lost, start, available) == Some(start)
  {
    if ps != [] {
      NoRequiredRole(ps[..|ps| - 1], lost, start, available);
      assert ps[|ps| - 1] in ps;
    }
  }

  /** On the inputs alone, for a lost key without a required role: what is left plus the
      one optional key is below the threshold, what is left plus all available is not. */
  lemma OptionalRoleFallsShortIff(schema: Schema, available: set<Name>, signers: seq<Name>, lost: Name)
    requires lost !in available && MeetsRequired(schema, Elements(signers))
    requires forall p :: p in schema.required ==> !p.Matches(lost)
    requires Replace(schema, available, signers, lost).0 != []
    ensures var start := Elements(signers) - {lost};
            var list := Replace(schema, available, signers, lost).0;
            !Passes(schema, list) && Satisfies(schema, Elements(list) + available) <==>
            CappedTotal(schema.optional, start) + OptionalGain(schema, start, available)
            < schema.minOptional <= CappedTotal(schema.optional, start + available)
  {
    NoRequiredRole(schema.required, lost, Elements(signers) - {lost}, available);
    ReplaceFallsShortIff(schema, available, signers, lost);
  }

  /** A passing list without a key that serves one optional pattern is at most one short. */
  lemma OneRoleOneShort(schema: Schema, signers: seq<Name>, lost: Name)
    requires NoDup(signers) && Passes(schema, signers) && AtMostOne(schema.optional, lost)
    ensures AtMostOneShort(schema, signers, lost)
  {
    var start := Elements(signers) - {lost};
    PassesIsSatisfies(schema, signers);
    GainIsExact(schema.optional, start, lost);
    GainAtMostOne(schema.optional, start, lost);
    CappedTotalMono(schema.optional, Elements(signers), start + {lost});
  }

  // ----- When nobody new is asked -----

  /** Every required pattern of the lost key is full without it, and every optional
      pattern is full or has no further (non-empty) available name. */
  ghost predicate NothingToAdd(schema: Schema, start: set<Name>, available: set<Name>, lost: Name) {
    && RequiredFull(schema.required, start, lost)
    && OptionalSpent(schema.optional, start, available)
  }

  ghost predicate RequiredFull(ps: seq<Pattern>, start: set<Name>, lost: Name) {
    forall p :: p in ps && p.Matches(lost) ==> |Matching(p, start)| >= p.times
  }

  ghost predicate OptionalSpent(ps: seq<Pattern>, start: set<Name>, available: set<Name>) {
    forall p :: p in ps ==> |Matching(p, start)| >= p.times || Matching(p, available) - {[]} <= start
  }

  lemma {:induction false} RequiredIdleIff(ps: seq<Pattern>, lost: Name, start: set<Name>, available: set<Name>)
    requires lost !in available
    ensures RepairRequired(ps, lost, start, available) == Some(start) <==> RequiredFull(ps, start, lost)
  {
    if ps != [] {
      var init, p := ps[..|ps| - 1], ps[|ps| - 1];
      assert ps == init + [p];
      RequiredIdleIff(init, lost, start, available);
      RequiredRange(init, lost, start, available);
      RequiredRange(ps, lost, start, available);
      if p.Matches(lost) && |Matching(p, start)| < p.times && FindNewKey(start, p, available).0 {
        RequiredKeyNotEmpty(p, lost, start, available);
      }
      RequiredGrows(ps, lost, start, available);
    }
  }

  lemma RequiredGrows(ps: seq<Pattern>, lost: Name, start: set<Name>, available: set<Name>)
    requires ps != []
    ensures var before := RepairRequired(ps[..|ps| - 1], lost, start, available);
            RepairRequired(ps, lost, start, available) == Some(start) ==> before == Some(start)
  {
    RequiredRange(ps[..|ps| - 1], lost, start, available);
  }

  /** The search gives no key: the pattern is full, or only the empty name is left. */
  lemma NoNewKeyIff(p: Pattern, cur: set<Name>, available: set<Name>)
    ensures FindNewKey(cur, p, available).1 == []
       <==> |Matching(p, cur)| >= p.times || Matching(p, available) - {[]} <= cur
  {
    var candidates := Matching(p, available) - cur;
    if |Matching(p, cur)| < p.times && candidates != {} {
      var least := Least(candidates);
      if least == [] {
        assert forall n :: n in Matching(p, available) ==> |n| == |least|;
      } else {
        assert least in Matching(p, available) - {[]};
      }
    }
  }

  lemma {:induction false} OptionalIdleIff(ps: seq<Pattern>, cur: set<Name>, available: set<Name>)
    ensures RepairOptional(ps, cur, available).None? <==> OptionalSpent(ps, cur, available)
  {
    if ps != [] {
      var init, p := ps[..|ps| - 1], ps[|ps| - 1];
      assert ps == init + [p];
      OptionalIdleIff(init, cur, available);
      NoNewKeyIff(p, cur, available);
    }
  }

  /** Exactly when the list only gets shorter: somebody is left on it, and the names
      left fill or exhaust every pattern that is looked at. */
  lemma ReplaceIdleIff(schema: Schema, available: set<Name>, signers: seq<Name>, lost: Name)
    requires lost !in available
    ensures var start := Elements(signers) - {lost};
            var (list, added) := Replace(schema, available, signers, lost);
            list != [] && added == [] <==> start != {} && NothingToAdd(schema, start, available, lost)
  {
    var start := Elements(signers) - {lost};
    RequiredIdleIff(schema.required, lost, start, available);
    OptionalIdleIff(schema.optional, start, available);
    var r := RepairRequired(schema.required, lost, start, available);
    if r.Some? {
      RequiredRange(schema.required, lost, start, available);
      OptionalAdds(schema.optional, r.value, available);
      var end := With(r.value, RepairOptional(schema.optional, r.value, available));
      InListed(end);
      InListed(end - start);
      assert end - start == {} <==> end == start;
    }
  }
}
