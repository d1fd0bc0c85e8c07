/** A multi-party trust schema and the check of a signer list against it. */
module Schemas {
  import opened Names
  import opened Patterns

  /** `required` is the all-of section, `optional` the at-least section. */
  datatype Schema = Schema(
    pktName: Pattern,
    required: seq<Pattern>,
    optional: seq<Pattern>,
    minOptional: nat)

  // ----- The check, on vectors of names -----

  /** How many entries of a list match, repetitions included. */
  ghost function Count(p: Pattern, s: seq<Name>): nat {
    if s == [] then 0 else Count(p, s[..|s| - 1]) + if p.Matches(s[|s| - 1]) then 1 else 0
  }

  function Min(a: nat, b: nat): nat { if a < b then a else b }

  /** Sum over the patterns of the matches, each capped by its multiplicity. */
  ghost function CappedCount(ps: seq<Pattern>, s: seq<Name>): nat {
    if ps == [] then 0 else
      CappedCount(ps[..|ps| - 1], s) + Min(Count(ps[|ps| - 1], s), ps[|ps| - 1].times)
  }

  ghost predicate Passes(schema: Schema, s: seq<Name>) {
    && (forall p :: p in schema.required ==> Count(p, s) >= p.times)
    && CappedCount(schema.optional, s) >= schema.minOptional
  }

  method CountMatches(p: Pattern, s: seq<Name>) returns (count: nat)
    ensures count == Count(p, s)
  {
    count := 0;
    for i := 0 to |s|
      invariant count == Count(p, s[..i])
    {
      assert s[..i + 1][..i] == s[..i];
      var b := p.Match(s[i]);
      if b { count := count + 1; }
    }
    assert s[..|s|] == s;
  }

  method PassSchema(schema: Schema, signers: seq<Name>) returns (pass: bool)
    ensures pass == Passes(schema, signers)
  {
    for i := 0 to |schema.required|
      invariant forall j :: 0 <= j < i ==> Count(schema.required[j], signers) >= schema.required[j].times
    {
      var count := CountMatches(schema.required[i], signers);
      if count < schema.required[i].times { return false; }
    }
    var total := 0;
    for i := 0 to |schema.optional|
      invariant total == CappedCount(schema.optional[..i], signers)
    {
      assert schema.optional[..i + 1][..i] == schema.optional[..i];
      var count := CountMatches(schema.optional[i], signers);
      total := total + Min(count, schema.optional[i].times);
    }
    assert schema.optional[..|schema.optional|] == schema.optional;
    return total >= schema.minOptional;
  }

  // ----- The meaning, on sets of names -----

  ghost function Matching(p: Pattern, s: set<Name>): set<Name> { set n | n in s && p.Matches(n) }

  ghost function CappedTotal(ps: seq<Pattern>, s: set<Name>): nat {
    if ps == [] then 0 else
      CappedTotal(ps[..|ps| - 1], s) + Min(|Matching(ps[|ps| - 1], s)|, ps[|ps| - 1].times)
  }

  /** Each required pattern is matched by that many different names. */
  ghost predicate MeetsRequired(schema: Schema, s: set<Name>) {
    forall p :: p in schema.required ==> |Matching(p, s)| >= p.times
  }

  /** The documented reading of a schema: n different names for each required
      pattern, and enough matches overall for the optional ones. */
  ghost predicate Satisfies(schema: Schema, s: set<Name>) {
    MeetsRequired(schema, s) && CappedTotal(schema.optional, s) >= schema.minOptional
  }

  /** Some duplicate-free list of available names passes. */
  ghost predicate Feasible(schema: Schema, available: set<Name>) {
    exists s: seq<Name> :: NoDup(s) && Elements(s) <= available && Passes(schema, s)
  }

  lemma MatchingMono(p: Pattern, a: set<Name>, b: set<Name>)
    requires a <= b
    ensures Matching(p, a) <= Matching(p, b) && |Matching(p, a)| <= |Matching(p, b)|
  {
    SubsetSize(Matching(p, a), Matching(p, b));
  }

  lemma {:induction false} CappedTotalMono(ps: seq<Pattern>, a: set<Name>, b: set<Name>)
    requires a <= b
    ensures CappedTotal(ps, a) <= CappedTotal(ps, b)
  {
    if ps != [] {
      CappedTotalMono(ps[..|ps| - 1], a, b);
      MatchingMono(ps[|ps| - 1], a, b);
    }
  }

  /** A larger set of signers never does worse. */
  lemma SatisfiesMono(schema: Schema, a: set<Name>, b: set<Name>)
    requires a <= b && Satisfies(schema, a)
    ensures Satisfies(schema, b)
  {
    CappedTotalMono(schema.optional, a, b);
    forall p | p in schema.required ensures |Matching(p, b)| >= p.times { MatchingMono(p, a, b); }
  }

  // ----- The check against the meaning -----

  lemma MatchingAppend(p: Pattern, init: seq<Name>, x: Name)
    ensures var more := Matching(p, Elements(init + [x]));
            && (x in init || !p.Matches(x) ==> more == Matching(p, Elements(init)))
            && (x !in init && p.Matches(x) ==> |more| == |Matching(p, Elements(init))| + 1)
  {
    assert Elements(init + [x]) == Elements(init) + {x};
    if x !in init && p.Matches(x) {
      assert Matching(p, Elements(init + [x])) == Matching(p, Elements(init)) + {x};
    } else {
      assert Matching(p, Elements(init + [x])) == Matching(p, Elements(init));
    }
  }

  /** Counting entries never finds fewer than the different names there are,
      and finds exactly those when nothing is repeated. */
  lemma {:induction false} CountIsMatching(p: Pattern, s: seq<Name>)
    ensures Count(p, s) >= |Matching(p, Elements(s))|
    ensures NoDup(s) ==> Count(p, s) == |Matching(p, Elements(s))|
  {
    if s != [] {
      var init, x := s[..|s| - 1], s[|s| - 1];
      CountIsMatching(p, init);
      assert s == init + [x];
      MatchingAppend(p, init, x);
    }
  }

  /** The count is the number of positions that match. */
  lemma {:induction false} CountIsPositions(p: Pattern, s: seq<Name>)
    ensures Count(p, s) == |set i | 0 <= i < |s| && p.Matches(s[i])|
  {
    if s != [] {
      var init, n := s[..|s| - 1], |s| - 1;
      CountIsPositions(p, init);
      var before := set i | 0 <= i < |init| && p.Matches(init[i]);
      var all := set i | 0 <= i < |s| && p.Matches(s[i]);
      assert all == before + (if p.Matches(s[n]) then {n} else {});
    }
  }

  /** A repeated matching name makes the count exceed the different names. */
  lemma {:induction false} RepetitionCounts(p: Pattern, s: seq<Name>, i: nat, j: nat)
    requires i < j < |s| && s[i] == s[j] && p.Matches(s[i])
    ensures Count(p, s) > |Matching(p, Elements(s))|
  {
    var init, x := s[..|s| - 1], s[|s| - 1];
    assert s == init + [x];
    MatchingAppend(p, init, x);
    if j < |init| {
      RepetitionCounts(p, init, i, j);
    } else {
      assert init[i] == x;
      CountIsMatching(p, init);
    }
  }

  lemma {:induction false} CappedCountIsTotal(ps: seq<Pattern>, s: seq<Name>)
    ensures CappedCount(ps, s) >= CappedTotal(ps, Elements(s))
    ensures NoDup(s) ==> CappedCount(ps, s) == CappedTotal(ps, Elements(s))
  {
    if ps != [] {
      CappedCountIsTotal(ps[..|ps| - 1], s);
      CountIsMatching(ps[|ps| - 1], s);
    }
  }

  /** On duplicate-free lists the check decides the documented reading; on any
      list it never rejects what the reading accepts. */
  lemma PassesIsSatisfies(schema: Schema, s: seq<Name>)
    ensures Satisfies(schema, Elements(s)) ==> Passes(schema, s)
    ensures NoDup(s) ==> (Passes(schema, s) <==> Satisfies(schema, Elements(s)))
  {
    CappedCountIsTotal(schema.optional, s);
    forall p | p in schema.required
      ensures Count(p, s) >= |Matching(p, Elements(s))|
      ensures NoDup(s) ==> Count(p, s) == |Matching(p, Elements(s))|
    {
      CountIsMatching(p, s);
    }
  }

  /** Exactly the duplicate-free lists are judged by the documented reading under
      every schema: a repeated name is counted again, so some schema accepts it
      for too few different names. */
  lemma DuplicatesDecide(s: seq<Name>)
    ensures NoDup(s) <==> forall schema: Schema :: Passes(schema, s) <==> Satisfies(schema, Elements(s))
  {
    if NoDup(s) {
      forall schema: Schema ensures Passes(schema, s) <==> Satisfies(schema, Elements(s)) {
        PassesIsSatisfies(schema, s);
      }
    } else {
      var i, j :| 0 <= i < j < |s| && s[i] == s[j];
      var p := Pattern(s[i], 0);
      RepetitionCounts(p, s, i, j);
      var q := Pattern(s[i], Count(p, s));
      SamePattern(p, q, s);
      var schema := Schema(q, [q], [], 0);
      assert Passes(schema, s);
      assert q in schema.required && !Satisfies(schema, Elements(s));
    }
  }

  /** The multiplicity plays no part in matching. */
  lemma {:induction false} SamePattern(p: Pattern, q: Pattern, s: seq<Name>)
    requires p.name == q.name
    ensures Count(p, s) == Count(q, s) && Matching(p, Elements(s)) == Matching(q, Elements(s))
  {
    if s != [] {
      SamePattern(p, q, s[..|s| - 1]);
    }
    assert forall n :: p.Matches(n) == q.Matches(n);
  }

  /** Feasible means: all the available names together satisfy the schema. */
  lemma FeasibleIsSatisfies(schema: Schema, available: set<Name>)
    ensures Feasible(schema, available) <==> Satisfies(schema, available)
  {
    if Satisfies(schema, available) {
      var s := Listed(available);
      PassesIsSatisfies(schema, s);
      assert NoDup(s) && Elements(s) <= available && Passes(schema, s);
    }
    if Feasible(schema, available) {
      var s :| NoDup(s) && Elements(s) <= available && Passes(schema, s);
      PassesIsSatisfies(schema, s);
      SatisfiesMono(schema, Elements(s), available);
    }
  }

  /** Losing names never makes a schema feasible. */
  lemma FeasibleMono(schema: Schema, a: set<Name>, b: set<Name>)
    requires a <= b && Feasible(schema, a)
    ensures Feasible(schema, b)
  {
    var s :| NoDup(s) && Elements(s) <= a && Passes(schema, s);
    assert NoDup(s) && Elements(s) <= b && Passes(schema, s);
  }

  // ----- The verdict depends on the multiset only, and grows with it -----

  lemma {:induction false} CountRemove(p: Pattern, s: seq<Name>, j: nat)
    requires j < |s|
    ensures Count(p, s) == Count(p, s[..j] + s[j + 1..]) + if p.Matches(s[j]) then 1 else 0
  {
    var rest := s[..j] + s[j + 1..];
    var init := s[..|s| - 1];
    if j == |s| - 1 {
      assert rest == init;
    } else {
      CountRemove(p, init, j);
      assert rest[..|rest| - 1] == init[..j] + init[j + 1..];
      assert rest[|rest| - 1] == s[|s| - 1];
    }
  }

  lemma {:induction false} CountMono(p: Pattern, a: seq<Name>, b: seq<Name>)
    requires multiset(a) <= multiset(b)
    ensures Count(p, a) <= Count(p, b)
  {
    if a != [] {
      var init, x := a[..|a| - 1], a[|a| - 1];
      assert a == init + [x];
      assert x in multiset(a);
      var j :| 0 <= j < |b| && b[j] == x;
      var rest := b[..j] + b[j + 1..];
      assert b == b[..j] + [x] + b[j + 1..];
      assert multiset(rest) == multiset(b) - multiset{x};
      assert multiset(init) == multiset(a) - multiset{x};
      assert forall n :: multiset(init)[n] <= multiset(rest)[n];
      CountMono(p, init, rest);
      CountRemove(p, b, j);
    }
  }

  lemma {:induction false} CappedCountMono(ps: seq<Pattern>, a: seq<Name>, b: seq<Name>)
    requires multiset(a) <= multiset(b)
    ensures CappedCount(ps, a) <= CappedCount(ps, b)
  {
    if ps != [] {
      CappedCountMono(ps[..|ps| - 1], a, b);
      CountMono(ps[|ps| - 1], a, b);
    }
  }

  /** Adding signers, repeated or not and anywhere in the list, never turns an
      accepted list into a rejected one; so equal multisets get equal verdicts. */
  lemma PassesMono(schema: Schema, a: seq<Name>, b: seq<Name>)
    requires multiset(a) <= multiset(b)
    ensures Passes(schema, a) ==> Passes(schema, b)
    ensures multiset(a) == multiset(b) ==> (Passes(schema, a) <==> Passes(schema, b))
  {
    CappedCountMono(schema.optional, a, b);
    forall p | p in schema.required ensures Count(p, a) <= Count(p, b) { CountMono(p, a, b); }
    if multiset(a) == multiset(b) {
      CappedCountMono(schema.optional, b, a);
      forall p | p in schema.required ensures Count(p, b) <= Count(p, a) { CountMono(p, b, a); }
    }
  }
}
