/** Which keys a replacement adds: a description of the two repair loops that does not
    use the functions that compute them, and what follows for the returned keys. */
module Additions {
  import opened Names
  import opened Patterns
  import opened Schemas
  import opened Replacement

  /** The next key for a pattern: the first available match that is not listed yet. */
  ghost predicate IsNext(p: Pattern, existing: set<Name>, available: set<Name>, n: Name) {
    && n in Matching(p, available) - existing
    && forall m :: m in Matching(p, available) - existing && m != n ==> NameLess(n, m)
  }

  ghost predicate Room(p: Pattern, s: set<Name>) { |Matching(p, s)| < p.times }

  lemma NextIsLeast(p: Pattern, existing: set<Name>, available: set<Name>, n: Name)
    requires Matching(p, available) - existing != {}
    ensures IsNext(p, existing, available, n) <==> n == Least(Matching(p, available) - existing)
  {
    var least := Least(Matching(p, available) - existing);
    if IsNext(p, existing, available, n) { NameOrder(n, least); }
  }

  // ----- The required patterns, one after the other -----

  /** One pattern: nothing happens unless it matches the lost key and has room; then
      exactly its next key is added. */
  ghost predicate RepairStep(p: Pattern, lost: Name, available: set<Name>, before: set<Name>, after: set<Name>) {
    if p.Matches(lost) && Room(p, before)
    then exists n :: IsNext(p, before, available, n) && after == before + {n}
    else after == before
  }

  /** A sequence of sets that leads through the patterns in their order. */
  ghost predicate RepairSteps(ps: seq<Pattern>, lost: Name, available: set<Name>, states: seq<set<Name>>) {
    && |states| == |ps| + 1
    && forall i :: 0 <= i < |ps| ==> RepairStep(ps[i], lost, available, states[i], states[i + 1])
  }

  ghost predicate RepairedTo(ps: seq<Pattern>, lost: Name, available: set<Name>, start: set<Name>, end: set<Name>) {
    exists states :: RepairSteps(ps, lost, available, states) && states[0] == start && states[|ps|] == end
  }

  lemma LastRepair(ps: seq<Pattern>, lost: Name, start: set<Name>, available: set<Name>,
                   before: set<Name>, end: set<Name>)
    requires ps != [] && lost !in available
    requires RepairRequired(ps[..|ps| - 1], lost, start, available) == Some(before)
    ensures RepairRequired(ps, lost, start, available) == Some(end)
       <==> RepairStep(ps[|ps| - 1], lost, available, before, end)
  {
    var p := ps[|ps| - 1];
    var candidates := Matching(p, available) - before;
    if p.Matches(lost) && Room(p, before) && candidates != {} {
      RequiredKeyNotEmpty(p, lost, before, available);
      NextIsLeast(p, before, available, Least(candidates));
      forall n | IsNext(p, before, available, n) ensures n == Least(candidates) {
        NextIsLeast(p, before, available, n);
      }
    }
  }

  lemma AppendState(ps: seq<Pattern>, lost: Name, available: set<Name>, states: seq<set<Name>>, end: set<Name>)
    requires ps != [] && RepairSteps(ps[..|ps| - 1], lost, available, states)
    requires RepairStep(ps[|ps| - 1], lost, available, states[|ps| - 1], end)
    ensures RepairSteps(ps, lost, available, states + [end])
  {
    var init, more := ps[..|ps| - 1], states + [end];
    forall i | 0 <= i < |ps| ensures RepairStep(ps[i], lost, available, more[i], more[i + 1]) {
      if i < |init| { assert init[i] == ps[i] && more[i] == states[i] && more[i + 1] == states[i + 1]; }
    }
  }

  lemma DropState(ps: seq<Pattern>, lost: Name, available: set<Name>, states: seq<set<Name>>)
    requires ps != [] && RepairSteps(ps, lost, available, states)
    ensures RepairSteps(ps[..|ps| - 1], lost, available, states[..|ps|])
    ensures RepairStep(ps[|ps| - 1], lost, available, states[|ps| - 1], states[|ps|])
  {
    var init, fewer := ps[..|ps| - 1], states[..|ps|];
    forall i | 0 <= i < |init| ensures RepairStep(init[i], lost, available, fewer[i], fewer[i + 1]) {
      assert init[i] == ps[i] && fewer[i] == states[i] && fewer[i + 1] == states[i + 1];
    }
  }

  /** The required repair succeeds with a set exactly when these steps lead to it. */
  lemma {:induction false} RequiredStepByStep(ps: seq<Pattern>, lost: Name, start: set<Name>, available: set<Name>,
                                              end: set<Name>)
    requires lost !in available
    ensures RepairRequired(ps, lost, start, available) == Some(end) <==> RepairedTo(ps, lost, available, start, end)
  {
    if ps == [] {
      if end == start { assert RepairSteps(ps, lost, available, [start]); }
    } else {
      var init := ps[..|ps| - 1];
      if RepairRequired(ps, lost, start, available) == Some(end) {
        var before := RepairRequired(init, lost, start, available).value;
        RequiredStepByStep(init, lost, start, available, before);
        var states :| RepairSteps(init, lost, available, states) && states[0] == start && states[|init|] == before;
        LastRepair(ps, lost, start, available, before, end);
        AppendState(ps, lost, available, states, end);
        assert (states + [end])[0] == start && (states + [end])[|ps|] == end;
      }
      if RepairedTo(ps, lost, available, start, end) {
        var states :| RepairSteps(ps, lost, available, states) && states[0] == start && states[|ps|] == end;
        DropState(ps, lost, available, states);
        assert states[..|ps|][0] == start && states[..|ps|][|init|] == states[|init|];
        RequiredStepByStep(init, lost, start, available, states[|init|]);
        LastRepair(ps, lost, start, available, states[|init|], end);
      }
    }
  }

  /** The patterns that match the lost key and have room without it. */
  ghost function Needing(ps: seq<Pattern>, lost: Name, start: set<Name>): nat {
    if ps == [] then 0 else
      Needing(ps[..|ps| - 1], lost, start)
      + if ps[|ps| - 1].Matches(lost) && Room(ps[|ps| - 1], start) then 1 else 0
  }

  /** At most one key is added for each of them. */
  lemma {:induction false} RequiredAddsFew(ps: seq<Pattern>, lost: Name, start: set<Name>, available: set<Name>)
    requires lost !in available
    ensures var r := RepairRequired(ps, lost, start, available);
            r.Some? ==> |r.value - start| <= Needing(ps, lost, start)
  {
    var r := RepairRequired(ps, lost, start, available);
    if ps != [] && r.Some? {
      var before := RepairRequired(ps[..|ps| - 1], lost, start, available).value;
      RequiredAddsFew(ps[..|ps| - 1], lost, start, available);
      RequiredRange(ps[..|ps| - 1], lost, start, available);
      LastRepair(ps, lost, start, available, before, r.value);
      MatchingMono(ps[|ps| - 1], start, before);
      OneMoreAdded(start, before, r.value);
    }
  }

  lemma OneMoreAdded(start: set<Name>, before: set<Name>, after: set<Name>)
    ensures after == before ==> |after - start| == |before - start|
    ensures (exists n :: n !in before && after == before + {n}) ==> |after - start| <= |before - start| + 1
  {
    if n :| n !in before && after == before + {n} {
      assert after - start <= before - start + {n};
      SubsetSize(after - start, before - start + {n});
    }
  }

  /** The key is owed to a pattern that matches the lost key and had room: it matches it,
      and every earlier available match is on the list. */
  ghost predicate OwedToRequired(ps: seq<Pattern>, lost: Name, start: set<Name>, available: set<Name>,
                                 list: set<Name>, n: Name) {
    exists i :: 0 <= i < |ps| && ps[i].Matches(lost) && Room(ps[i], start) && ps[i].Matches(n)
                && Below(Matching(ps[i], available), n) <= list
  }

  lemma {:induction false} RequiredAddsOwed(ps: seq<Pattern>, lost: Name, start: set<Name>,
                                            available: set<Name>, n: Name)
    requires lost !in available && RepairRequired(ps, lost, start, available).Some?
    requires n in RepairRequired(ps, lost, start, available).value - start
    ensures OwedToRequired(ps, lost, start, available, RepairRequired(ps, lost, start, available).value, n)
  {
    var init, p := ps[..|ps| - 1], ps[|ps| - 1];
    var before, end := RepairRequired(init, lost, start, available).value,
                       RepairRequired(ps, lost, start, available).value;
    RequiredRange(init, lost, start, available);
    LastRepair(ps, lost, start, available, before, end);
    if n in before {
      RequiredAddsOwed(init, lost, start, available, n);
      OwedStays(init, p, lost, start, available, before, end, n);
    } else {
      MatchingMono(p, start, before);
      NothingEarlier(p, before, available, n);
      assert ps[|ps| - 1] == p && Below(Matching(p, available), n) <= end;
    }
  }

  lemma OwedStays(init: seq<Pattern>, p: Pattern, lost: Name, start: set<Name>, available: set<Name>,
                  before: set<Name>, after: set<Name>, n: Name)
    requires OwedToRequired(init, lost, start, available, before, n) && before <= after
    ensures OwedToRequired(init + [p], lost, start, available, after, n)
  {
    var i :| 0 <= i < |init| && init[i].Matches(lost) && Room(init[i], start) && init[i].Matches(n)
             && Below(Matching(init[i], available), n) <= before;
    assert (init + [p])[i] == init[i];
  }

  lemma NothingEarlier(p: Pattern, existing: set<Name>, available: set<Name>, n: Name)
    requires IsNext(p, existing, available, n)
    ensures Below(Matching(p, available), n) <= existing
  {
    forall m | m in Below(Matching(p, available), n) ensures m in existing { NameOrder(m, n); }
  }

  // ----- The optional patterns -----

  /** The first optional pattern that has room and a further available name gives its next key. */
  lemma {:induction false} OptionalChoiceIff(ps: seq<Pattern>, cur: set<Name>, available: set<Name>, n: Name)
    ensures RepairOptional(ps, cur, available) == Some(n)
       <==> n != [] && exists i :: 0 <= i < |ps| && OptionalSpent(ps[..i], cur, available)
                                   && Room(ps[i], cur) && IsNext(ps[i], cur, available, n)
  {
    if ps != [] {
      var init, p, last := ps[..|ps| - 1], ps[|ps| - 1], |ps| - 1;
      OptionalChoiceIff(init, cur, available, n);
      OptionalIdleIff(init, cur, available);
      assert forall i :: 0 <= i < last ==> init[i] == ps[i] && init[..i] == ps[..i];
      if Matching(p, available) - cur != {} { NextIsLeast(p, cur, available, n); }
      LastChoice(ps, cur, available, n);
      if n != [] && Room(p, cur) && IsNext(p, cur, available, n) && RepairOptional(init, cur, available).None? {
        assert OptionalSpent(ps[..last], cur, available);
      }
    }
  }

  /** A pattern that gives its next key is not spent, so no later one is looked at. */
  lemma LastChoice(ps: seq<Pattern>, cur: set<Name>, available: set<Name>, n: Name)
    requires ps != []
    ensures n != [] && Room(ps[|ps| - 1], cur) && IsNext(ps[|ps| - 1], cur, available, n) ==>
              !OptionalSpent(ps, cur, available)
  {
    var p := ps[|ps| - 1];
    if n != [] && Room(p, cur) && IsNext(p, cur, available, n) {
      assert p in ps && n in Matching(p, available) - {[]};
    }
  }

  /** The key was the next one of an optional pattern that had room, and no earlier
      optional pattern had room and a further name. */
  ghost predicate OwedToOptional(ps: seq<Pattern>, available: set<Name>, others: set<Name>, n: Name) {
    exists i :: 0 <= i < |ps| && OptionalSpent(ps[..i], others, available)
                && Room(ps[i], others) && IsNext(ps[i], others, available, n)
  }

  // ----- The whole replacement -----

  /** Nothing is added without need: at most one key for each required pattern that
      matches the lost key and has room without it, and at most one for the optional
      patterns; each is the earliest available one for its pattern that is not listed. */
  lemma ReplaceAddsOwed(schema: Schema, available: set<Name>, signers: seq<Name>, lost: Name)
    requires lost !in available
    ensures var start := Elements(signers) - {lost};
            var (list, added) := Replace(schema, available, signers, lost);
            && |added| <= Needing(schema.required, lost, start) + 1
            && forall n :: n in added ==>
                 || OwedToRequired(schema.required, lost, start, available, Elements(list), n)
                 || OwedToOptional(schema.optional, available, Elements(list) - {n}, n)
  {
    var start := Elements(signers) - {lost};
    var r := RepairRequired(schema.required, lost, start, available);
    if r.Some? {
      var optional := RepairOptional(schema.optional, r.value, available);
      RequiredRange(schema.required, lost, start, available);
      RequiredAddsFew(schema.required, lost, start, available);
      OptionalAdds(schema.optional, r.value, available);
      var end := With(r.value, optional);
      OneMoreAdded(start, r.value, end);
      InListed(end);
      InListed(end - start);
      forall n | n in end - start
        ensures || OwedToRequired(schema.required, lost, start, available, end, n)
                || OwedToOptional(schema.optional, available, end - {n}, n)
      {
        AddedIsOwed(schema, available, start, lost, n);
      }
    }
  }

  lemma AddedIsOwed(schema: Schema, available: set<Name>, start: set<Name>, lost: Name, n: Name)
    requires lost !in available && RepairRequired(schema.required, lost, start, available).Some?
    requires var cur := RepairRequired(schema.required, lost, start, available).value;
             n in With(cur, RepairOptional(schema.optional, cur, available)) - start
    ensures var cur := RepairRequired(schema.required, lost, start, available).value;
            var end := With(cur, RepairOptional(schema.optional, cur, available));
            || OwedToRequired(schema.required, lost, start, available, end, n)
            || OwedToOptional(schema.optional, available, end - {n}, n)
  {
    var cur := RepairRequired(schema.required, lost, start, available).value;
    var optional := RepairOptional(schema.optional, cur, available);
    var end := With(cur, optional);
    if n in cur {
      RequiredAddsOwed(schema.required, lost, start, available, n);
      OwedWithin(schema.required, lost, start, available, cur, end, n);
    } else {
      OptionalChoiceIff(schema.optional, cur, available, n);
      assert end - {n} == cur;
    }
  }

  lemma OwedWithin(ps: seq<Pattern>, lost: Name, start: set<Name>, available: set<Name>,
                   before: set<Name>, after: set<Name>, n: Name)
    requires OwedToRequired(ps, lost, start, available, before, n) && before <= after
    ensures OwedToRequired(ps, lost, start, available, after, n)
  {
    var i :| 0 <= i < |ps| && ps[i].Matches(lost) && Room(ps[i], start) && ps[i].Matches(n)
             && Below(Matching(ps[i], available), n) <= before;
    assert Below(Matching(ps[i], available), n) <= after;
  }

  /** What a list, the keys added and the set they lead to have to do with each other. */
  ghost predicate ReplacedTo(schema: Schema, available: set<Name>, start: set<Name>, lost: Name, end: set<Name>) {
    exists cur :: RepairedTo(schema.required, lost, available, start, cur)
                  && (|| (end == cur && OptionalSpent(schema.optional, cur, available))
                      || exists n :: n != [] && OwedToOptional(schema.optional, available, cur, n) && end == cur + {n})
  }

  /** The exact result, told step by step: the list is what repairing the required
      patterns in order and then giving the first optional pattern that can use one a key
      leads to; and the keys returned are those that were not there before. */
  lemma ReplaceStepByStep(schema: Schema, available: set<Name>, signers: seq<Name>, lost: Name, end: set<Name>)
    requires lost !in available && end != {}
    ensures var start := Elements(signers) - {lost};
            Replace(schema, available, signers, lost) == (Listed(end), Listed(end - start))
            <==> ReplacedTo(schema, available, start, lost, end)
  {
    var start := Elements(signers) - {lost};
    InListed(end);
    ResultIff(schema, available, signers, lost, end);
    var r := RepairRequired(schema.required, lost, start, available);
    forall cur ensures r == Some(cur) <==> RepairedTo(schema.required, lost, available, start, cur) {
      RequiredStepByStep(schema.required, lost, start, available, cur);
    }
    if r.Some? { EndIff(schema, available, r.value, end); }
  }

  lemma ResultIff(schema: Schema, available: set<Name>, signers: seq<Name>, lost: Name, end: set<Name>)
    requires end != {}
    ensures var start := Elements(signers) - {lost};
            var r := RepairRequired(schema.required, lost, start, available);
            Replace(schema, available, signers, lost) == (Listed(end), Listed(end - start))
            <==> r.Some? && end == With(r.value, RepairOptional(schema.optional, r.value, available))
  {
    var start := Elements(signers) - {lost};
    var r := RepairRequired(schema.required, lost, start, available);
    InListed(end);
    if r.Some? {
      var computed := With(r.value, RepairOptional(schema.optional, r.value, available));
      assert Elements(Listed(computed)) == computed && Elements(Listed(end)) == end;
    }
  }

  lemma EndIff(schema: Schema, available: set<Name>, cur: set<Name>, end: set<Name>)
    ensures end == With(cur, RepairOptional(schema.optional, cur, available))
       <==> || (end == cur && OptionalSpent(schema.optional, cur, available))
            || exists n :: n != [] && OwedToOptional(schema.optional, available, cur, n) && end == cur + {n}
  {
    var optional := RepairOptional(schema.optional, cur, available);
    OptionalIdleIff(schema.optional, cur, available);
    if optional.Some? { OptionalChoiceIff(schema.optional, cur, available, optional.value); }
    forall n | n != [] && OwedToOptional(schema.optional, available, cur, n) ensures optional == Some(n) {
      OptionalChoiceIff(schema.optional, cur, available, n);
    }
  }
}
