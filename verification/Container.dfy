/** The schema container: trusted keys, the rules, and the cache of signers
    found unavailable. Its methods are the loops of the program; what they
    compute is stated with the functions of Schemas and Replacement. */
module Container {
  import opened Names
  import opened Patterns
  import opened Schemas
  import opened Replacement
  import Bls

  /** The first rule whose packet pattern matches decides. */
  ghost function FirstMatch(schemas: seq<Schema>, packetName: Name): Option<Schema> {
    if schemas == [] then None
    else if schemas[0].pktName.Matches(packetName) then Some(schemas[0])
    else FirstMatch(schemas[1..], packetName)
  }

  ghost predicate Accepts(schemas: seq<Schema>, trusted: set<Name>, packetName: Name, signers: seq<Name>) {
    && Elements(signers) <= trusted
    && var rule := FirstMatch(schemas, packetName);
       rule.Some? && Passes(rule.value, signers)
  }

  /** The trusted keys of a list, in list order. */
  function KeysOf(trusted: map<Name, Bls.Scalar>, signers: seq<Name>): (keys: seq<Bls.Scalar>)
    requires forall n :: n in signers ==> n in trusted
    ensures |keys| == |signers|
  {
    seq(|signers|, i requires 0 <= i < |signers| => trusted[signers[i]])
  }

  /** None where the program throws. For an empty list it returns whatever the
      uninitialised key variable held. */
  function AggregatedKey(trusted: map<Name, Bls.Scalar>, signers: seq<Name>, uninitialised: Bls.Scalar)
    : Option<Bls.Scalar>
  {
    if exists n :: n in signers && n !in trusted then None
    else if signers == [] then Some(uninitialised)
    else Some(Bls.Sum(KeysOf(trusted, signers)))
  }

  /** The sum of the multiplicities. */
  function SumTimes(ps: seq<Pattern>): nat {
    if ps == [] then 0 else SumTimes(ps[..|ps| - 1]) + ps[|ps| - 1].times
  }

  // ----- The names chosen for a schema -----

  /** For each required pattern its first available matches. */
  ghost function RequiredFirsts(ps: seq<Pattern>, available: set<Name>): set<Name> {
    if ps == [] then {} else
      var p := ps[|ps| - 1];
      RequiredFirsts(ps[..|ps| - 1], available) + Firsts(Matching(p, available), p.times)
  }

  /** How many matches are taken for the last of these optional patterns: as many as its
      multiplicity allows and the threshold still needs. The first pattern gives one
      even when the threshold is zero. */
  ghost function Quota(ps: seq<Pattern>, min: nat, available: set<Name>): nat
    requires ps != []
  {
    var before := CappedTotal(ps[..|ps| - 1], available);
    var cap := Min(|Matching(ps[|ps| - 1], available)|, ps[|ps| - 1].times);
    if before < min || |ps| == 1 then Wanted(cap, min, before) else 0
  }

  /** Taken one by one until the count reaches the threshold. */
  function Wanted(cap: nat, min: nat, count: nat): nat {
    if count < min then Min(cap, min - count) else Min(cap, 1)
  }

  ghost function OptionalFirsts(ps: seq<Pattern>, min: nat, available: set<Name>): set<Name> {
    if ps == [] then {} else
      OptionalFirsts(ps[..|ps| - 1], min, available)
      + Firsts(Matching(ps[|ps| - 1], available), Quota(ps, min, available))
  }

  /** A name is chosen when it is owed to a pattern: it is among the first matches of a
      required pattern, or among the first of an optional one that are still needed. */
  ghost predicate Chosen(schema: Schema, available: set<Name>, n: Name) {
    || (exists i :: 0 <= i < |schema.required|
                    && n in Firsts(Matching(schema.required[i], available), schema.required[i].times))
    || (exists i :: 0 <= i < |schema.optional| && FirstFor(schema.optional, i, schema.minOptional, available, n))
  }

  ghost predicate FirstFor(ps: seq<Pattern>, i: nat, min: nat, available: set<Name>, n: Name)
    requires i < |ps|
  {
    n in Firsts(Matching(ps[i], available), Quota(ps[..i + 1], min, available))
  }

  function AtLeastOne(n: nat): nat { if n == 0 then 1 else n }

  class MultipartySchemaContainer {
    var schemas: seq<Schema>
    var trustedIds: map<Name, Bls.Scalar>
    var unavailable: set<Name>

    constructor (schemas: seq<Schema>, trustedIds: map<Name, Bls.Scalar>)
      ensures this.schemas == schemas && this.trustedIds == trustedIds && unavailable == {}
    {
      this.schemas, this.trustedIds, this.unavailable := schemas, trustedIds, {};
    }

    ghost function Available(): set<Name>
      reads this
    {
      trustedIds.Keys - unavailable
    }

    method ResetCachedUnavailableSigners()
      modifies this`unavailable
      ensures unavailable == {} && Available() == trustedIds.Keys
    {
      unavailable := {};
    }

    method PassSchema(packetName: Name, signers: seq<Name>) returns (pass: bool)
      ensures pass == Accepts(schemas, trustedIds.Keys, packetName, signers)
    {
      for i := 0 to |signers|
        invariant Elements(signers[..i]) <= trustedIds.Keys
      {
        if signers[i] !in trustedIds {
          assert signers[i] in Elements(signers);
          return false;
        }
        ElementsPrefix(signers, i);
      }
      assert signers[..|signers|] == signers;
      for i := 0 to |schemas|
        invariant FirstMatch(schemas, packetName) == FirstMatch(schemas[i..], packetName)
      {
        var matches := schemas[i].pktName.Match(packetName);
        if matches {
          pass := Schemas.PassSchema(schemas[i], signers);
          return;
        }
      }
      return false;
    }

    method AggregateKey(signers: seq<Name>, uninitialised: Bls.Scalar) returns (r: Option<Bls.Scalar>)
      ensures r == AggregatedKey(trustedIds, signers, uninitialised)
      ensures r.None? <==> exists n :: n in signers && n !in trustedIds
      ensures r.Some? && signers != [] ==>
                (forall n :: n in signers ==> n in trustedIds) && r.value == Bls.Sum(KeysOf(trustedIds, signers))
    {
      var aggKey, init := uninitialised, false;
      for i := 0 to |signers|
        invariant forall j :: 0 <= j < i ==> signers[j] in trustedIds
        invariant init == (i > 0)
        invariant aggKey == if i == 0 then uninitialised else Bls.Sum(KeysOf(trustedIds, signers[..i]))
      {
        if signers[i] !in trustedIds { return None; }
        ghost var keys := KeysOf(trustedIds, signers[..i + 1]);
        assert keys[..i] == KeysOf(trustedIds, signers[..i]) && keys[i] == trustedIds[signers[i]];
        if !init {
          aggKey, init := trustedIds[signers[i]], true;
        } else {
          aggKey := Bls.Add(aggKey, trustedIds[signers[i]]);
        }
      }
      assert signers[..|signers|] == signers;
      return Some(aggKey);
    }

    /** The available trusted names the pattern matches, in canonical order. */
    method GetMatchedKeys(p: Pattern) returns (keys: seq<Name>)
      ensures keys == Listed(Matching(p, Available()))
    {
      var ids := ToVector(trustedIds.Keys);
      var found := MatchedAmong(ids, p);
      AllScanned(p, ids, trustedIds.Keys, unavailable);
      keys := ToVector(found);
    }

    /** The scan over the trusted names. */
    method MatchedAmong(ids: seq<Name>, p: Pattern) returns (found: set<Name>)
      ensures found == Matching(p, Elements(ids) - unavailable)
    {
      found := {};
      for i := 0 to |ids|
        invariant found == Matching(p, Elements(ids[..i]) - unavailable)
      {
        MatchOneMore(p, ids, i, unavailable);
        var matches := p.Match(ids[i]);
        if matches && ids[i] !in unavailable { found := found + {ids[i]}; }
      }
      assert ids[..|ids|] == ids;
    }

    method FindANewKeyForPattern(existing: set<Name>, p: Pattern) returns (found: bool, key: Name)
      ensures (found, key) == FindNewKey(existing, p, Available())
    {
      var count := CountMembers(existing, p);
      if count >= p.times { return true, []; }
      var keys := GetMatchedKeys(p);
      var i := FirstUnlisted(keys, existing);
      if i < |keys| {
        FirstIsLeast(keys, Matching(p, Available()), existing, i);
        return true, keys[i];
      }
      AllExisting(keys, Matching(p, Available()), existing);
      return false, [];
    }

    static method CountMembers(existing: set<Name>, p: Pattern) returns (count: nat)
      ensures count == |Matching(p, existing)|
    {
      var members := ToVector(existing);
      count := CountMatches(p, members);
      CountIsMatching(p, members);
    }

    /** Position of the first key that is not listed yet, or the number of keys. */
    static method FirstUnlisted(keys: seq<Name>, existing: set<Name>) returns (i: nat)
      ensures i <= |keys| && (i < |keys| ==> keys[i] !in existing)
      ensures forall j :: 0 <= j < i ==> keys[j] in existing
    {
      i := 0;
      while i < |keys| && keys[i] in existing
        invariant i <= |keys| && forall j :: 0 <= j < i ==> keys[j] in existing
      {
        i := i + 1;
      }
    }

    /** Inserts the first n matched keys. */
    static method InsertFirst(keys: seq<Name>, n: nat, before: set<Name>) returns (after: set<Name>)
      requires n <= |keys|
      ensures after == before + Elements(keys[..n])
    {
      after := before;
      for k := 0 to n
        invariant after == before + Elements(keys[..k])
      {
        OneMoreKey(before, keys, k);
        after := after + {keys[k]};
      }
    }

    /** The first available keys for every required pattern; None for want of keys. */
    method TakeRequired(schema: Schema) returns (r: Option<set<Name>>)
      ensures r.None? ==> !MeetsRequired(schema, Available())
      ensures r.Some? ==>
                && r.value == RequiredFirsts(schema.required, Available())
                && r.value <= Available() && |r.value| <= SumTimes(schema.required)
                && MeetsRequired(schema, r.value)
    {
      var result: set<Name> := {};
      for i := 0 to |schema.required|
        invariant result <= Available() && |result| <= SumTimes(schema.required[..i])
        invariant TakenForRequired(schema.required[..i], Available(), result)
      {
        var p := schema.required[i];
        var keys := GetMatchedKeys(p);
        if |keys| < p.times {
          assert p in schema.required;
          return None;
        }
        ghost var before := result;
        result := InsertFirst(keys, p.times, result);
        FirstKeys(p, Available(), keys, p.times, before, result);
        RequiredStep(schema.required, i, Available(), before, result);
      }
      assert schema.required[..|schema.required|] == schema.required;
      return Some(result);
    }

    /** The inner loop over one optional pattern: it stops once `count` reaches the threshold. */
    method TakeForPattern(p: Pattern, min: nat, before: set<Name>, count: nat) returns (result: set<Name>, taken: nat)
      requires count < min || count == 0
      ensures Takes(p, Available(), min, count, before, result, taken)
    {
      var keys := GetMatchedKeys(p);
      var cap := Min(|keys|, p.times);
      taken, result := 0, before;
      while taken < cap
        invariant taken <= cap && result == before + Elements(keys[..taken])
        invariant taken > 0 ==> count + taken < min
      {
        OneMoreKey(before, keys, taken);
        result := result + {keys[taken]};
        taken := taken + 1;
        if count + taken >= min { break; }
      }
      TakesFirst(p, Available(), keys, min, count, before, result, taken);
    }

    /** The first available keys still needed for the at-least section; None for want of keys. */
    method TakeOptional(schema: Schema, start: set<Name>) returns (r: Option<set<Name>>)
      requires start <= Available()
      ensures OptionalTaken(schema, start, Available(), r)
    {
      var result := start;
      var count: nat := 0;
      ghost var all := Available();
      for i := 0 to |schema.optional|
        invariant OptionalSoFar(schema.optional[..i], schema.minOptional, start, all, result, count)
        invariant if i == 0 then count == 0 else count < schema.minOptional
      {
        var taken;
        ghost var before := result;
        result, taken := TakeForPattern(schema.optional[i], schema.minOptional, result, count);
        OptionalStep(schema.optional, i, schema.minOptional, start, all, before, result, count, taken);
        count := count + taken;
        if count >= schema.minOptional {
          OptionalDone(schema, i + 1, start, all, result, count);
          return Some(result);
        }
      }
      OptionalEnds(schema, start, all, result, count);
      if count < schema.minOptional { return None; }
      return Some(result);
    }

    /** A list that satisfies the schema from the available keys; None where the
        program throws for want of keys. */
    method GetAvailableSigners(schema: Schema) returns (r: Option<seq<Name>>)
      ensures r.Some? <==> Feasible(schema, Available())
      ensures r.Some? ==>
                && Ascending(r.value) && NoDup(r.value)
                && Elements(r.value) <= Available()
                && Passes(schema, r.value)
                && |r.value| <= SumTimes(schema.required) + AtLeastOne(schema.minOptional)
                && (forall n :: n in r.value <==> Chosen(schema, Available(), n))
    {
      FeasibleIsSatisfies(schema, Available());
      var required := TakeRequired(schema);
      if required.None? { return None; }
      var optional := TakeOptional(schema, required.value);
      if optional.None? { return None; }
      var list := ToVector(optional.value);
      StillMatched(schema.required, required.value, optional.value);
      InListed(optional.value);
      forall n ensures n in list <==> Chosen(schema, Available(), n) { ChosenIff(schema, Available(), n); }
      PassesIsSatisfies(schema, list);
      SatisfiesMono(schema, optional.value, Available());
      return Some(list);
    }

    /** The loop over the required patterns; None when one cannot be filled. */
    method RepairRequiredPatterns(schema: Schema, lost: Name, start: set<Name>)
      returns (r: Option<(set<Name>, set<Name>)>)
      ensures RepairRequired(schema.required, lost, start, Available()) ==
              if r.None? then None else Some(r.value.0)
      ensures r.Some? ==> start <= r.value.0 && r.value.1 == r.value.0 - start
    {
      var members, diff: set<Name> := start, {};
      for i := 0 to |schema.required|
        invariant start <= members && diff == members - start
        invariant RepairRequired(schema.required[..i], lost, start, Available()) == Some(members)
      {
        assert schema.required[..i + 1][..i] == schema.required[..i];
        var matches := schema.required[i].Match(lost);
        if matches {
          var found, key := FindANewKeyForPattern(members, schema.required[i]);
          if !found {
            RequiredPrefix(schema.required, i + 1, lost, start, Available());
            return None;
          }
          if key != [] {
            NewKey(members, schema.required[i], Available());
            members, diff := members + {key}, diff + {key};
          }
        }
      }
      assert schema.required[..|schema.required|] == schema.required;
      return Some((members, diff));
    }

    /** The loop over the optional patterns: it stops at the first added key. */
    method RepairOptionalPatterns(schema: Schema, cur: set<Name>) returns (r: Option<Name>)
      ensures r == RepairOptional(schema.optional, cur, Available())
    {
      for i := 0 to |schema.optional|
        invariant RepairOptional(schema.optional[..i], cur, Available()).None?
      {
        assert schema.optional[..i + 1][..i] == schema.optional[..i];
        var found, key := FindANewKeyForPattern(cur, schema.optional[i]);
        if found && key == [] { continue; }
        if found && key != [] {
          OptionalPrefix(schema.optional, i + 1, cur, Available());
          return Some(key);
        }
      }
      assert schema.optional[..|schema.optional|] == schema.optional;
      return None;
    }

    /** Marks the key unavailable and repairs the list. */
    method ReplaceSigner(signers: seq<Name>, lost: Name, schema: Schema) returns (list: seq<Name>, added: seq<Name>)
      modifies this`unavailable
      ensures unavailable == old(unavailable) + {lost}
      ensures (list, added) == Replace(schema, Available(), signers, lost)
    {
      unavailable := unavailable + {lost};
      var start := Elements(signers) - {lost};
      var required := RepairRequiredPatterns(schema, lost, start);
      if required.None? { return [], []; }
      var (members, diff) := required.value;
      var optional := RepairOptionalPatterns(schema, members);
      if optional.Some? {
        OptionalAdds(schema.optional, members, Available());
        members, diff := members + {optional.value}, diff + {optional.value};
      }
      assert diff == members - start;
      list := ToVector(members);
      added := ToVector(diff);
    }
  }

  // ----- Steps of the loops -----

  lemma OneMoreKey(before: set<Name>, keys: seq<Name>, k: nat)
    requires k < |keys|
    ensures before + Elements(keys[..k]) + {keys[k]} == before + Elements(keys[..k + 1])
  {
    ElementsPrefix(keys, k);
  }

  lemma PrefixStep(ps: seq<Pattern>, i: nat)
    requires i < |ps|
    ensures |ps[..i + 1]| == i + 1 && ps[..i + 1][..i] == ps[..i] && ps[..i + 1][i] == ps[i]
  {
  }

  lemma MatchOneMore(p: Pattern, ids: seq<Name>, i: nat, unavailable: set<Name>)
    requires i < |ids|
    ensures Matching(p, Elements(ids[..i + 1]) - unavailable)
         == Matching(p, Elements(ids[..i]) - unavailable)
            + (if p.Matches(ids[i]) && ids[i] !in unavailable then {ids[i]} else {})
  {
    ElementsPrefix(ids, i);
  }

  lemma AllScanned(p: Pattern, ids: seq<Name>, all: set<Name>, unavailable: set<Name>)
    requires ids == Listed(all)
    ensures Elements(ids) - unavailable == all - unavailable
  {
  }

  lemma NewKey(existing: set<Name>, p: Pattern, available: set<Name>)
    requires FindNewKey(existing, p, available).0 && FindNewKey(existing, p, available).1 != []
    ensures FindNewKey(existing, p, available).1 in available - existing
  {
    var candidates := Matching(p, available) - existing;
    assert candidates != {} ==> Least(candidates) in candidates;
  }

  lemma AllExisting(keys: seq<Name>, matched: set<Name>, existing: set<Name>)
    requires keys == Listed(matched) && forall j :: 0 <= j < |keys| ==> keys[j] in existing
    ensures matched - existing == {}
  {
    InListed(matched);
    forall n | n in matched ensures n in existing { assert n in keys; }
  }

  lemma FirstIsLeast(keys: seq<Name>, matched: set<Name>, existing: set<Name>, i: nat)
    requires keys == Listed(matched) && i < |keys| && keys[i] !in existing
    requires forall j :: 0 <= j < i ==> keys[j] in existing
    ensures keys[i] in matched - existing && keys[i] == Least(matched - existing)
  {
    InListed(matched);
    var unlisted := matched - existing;
    assert keys[i] in keys && keys[i] in unlisted;
    var least := Least(unlisted);
    assert least in keys;
    var j :| 0 <= j < |keys| && keys[j] == least;
    if j != i {
      assert i < j && NameLess(keys[i], keys[j]) && NameLess(least, keys[i]);
      NameOrder(keys[i], least);
    }
  }

  lemma {:induction false} RequiredPrefix(ps: seq<Pattern>, i: nat, lost: Name, start: set<Name>, available: set<Name>)
    requires i <= |ps| && RepairRequired(ps[..i], lost, start, available).None?
    ensures RepairRequired(ps, lost, start, available).None?
  {
    if i < |ps| {
      assert ps[..|ps| - 1][..i] == ps[..i];
      RequiredPrefix(ps[..|ps| - 1], i, lost, start, available);
    } else {
      assert ps[..i] == ps;
    }
  }

  lemma {:induction false} OptionalPrefix(ps: seq<Pattern>, i: nat, cur: set<Name>, available: set<Name>)
    requires i <= |ps| && RepairOptional(ps[..i], cur, available).Some?
    ensures RepairOptional(ps, cur, available) == RepairOptional(ps[..i], cur, available)
  {
    if i < |ps| {
      assert ps[..|ps| - 1][..i] == ps[..i];
      OptionalPrefix(ps[..|ps| - 1], i, cur, available);
    } else {
      assert ps[..i] == ps;
    }
  }

  /** Taking the first n matched keys gives at least n matches, at most n more names. */
  lemma FirstKeys(p: Pattern, available: set<Name>, keys: seq<Name>, n: nat, before: set<Name>, after: set<Name>)
    requires keys == Listed(Matching(p, available)) && n <= |keys|
    requires after == before + Elements(keys[..n])
    ensures before <= after <= before + available
    ensures |Matching(p, after)| >= n && |after| <= |before| + n
    ensures after == before + Firsts(Matching(p, available), n)
  {
    FirstsAreListed(Matching(p, available), n);
    InListed(Matching(p, available));
    NoDupSize(keys[..n]);
    assert forall m :: m in keys[..n] ==> m in keys;
    Bounds(p, before, Elements(keys[..n]));
  }

  ghost predicate AllMatched(ps: seq<Pattern>, s: set<Name>) {
    forall p :: p in ps ==> |Matching(p, s)| >= p.times
  }

  ghost predicate TakenForRequired(ps: seq<Pattern>, available: set<Name>, s: set<Name>) {
    AllMatched(ps, s) && s == RequiredFirsts(ps, available)
  }

  lemma RequiredStep(ps: seq<Pattern>, i: nat, available: set<Name>, before: set<Name>, after: set<Name>)
    requires i < |ps| && TakenForRequired(ps[..i], available, before)
    requires after == before + Firsts(Matching(ps[i], available), ps[i].times)
    requires |Matching(ps[i], after)| >= ps[i].times
    ensures TakenForRequired(ps[..i + 1], available, after)
    ensures SumTimes(ps[..i + 1]) == SumTimes(ps[..i]) + ps[i].times
  {
    StillMatched(ps[..i], before, after);
    assert ps[..i + 1] == ps[..i] + [ps[i]];
    assert ps[..i + 1][..i] == ps[..i];
  }

  lemma StillMatched(ps: seq<Pattern>, before: set<Name>, after: set<Name>)
    requires before <= after && AllMatched(ps, before)
    ensures AllMatched(ps, after)
  {
    forall p | p in ps ensures |Matching(p, after)| >= p.times { MatchingMono(p, before, after); }
  }

  lemma Bounds(p: Pattern, before: set<Name>, some: set<Name>)
    requires forall m :: m in some ==> p.Matches(m)
    ensures |Matching(p, before + some)| >= |some| && |before + some| <= |before| + |some|
  {
    SubsetSize(some, Matching(p, before + some));
    assert before + some == before + (some - before);
    SubsetSize(some - before, some);
  }

  lemma {:induction false} CappedPrefix(ps: seq<Pattern>, i: nat, s: set<Name>)
    requires i <= |ps|
    ensures CappedTotal(ps[..i], s) <= CappedTotal(ps, s)
  {
    if i < |ps| {
      assert ps[..|ps| - 1][..i] == ps[..i];
      CappedPrefix(ps[..|ps| - 1], i, s);
    } else {
      assert ps[..i] == ps;
    }
  }

  /** Taking names for one pattern: as many of the first available matches as wanted, at
      most that many more names, at least that many matches. */
  ghost predicate Takes(p: Pattern, available: set<Name>, min: nat, count: nat,
                        before: set<Name>, after: set<Name>, taken: nat) {
    && taken == Wanted(Min(|Matching(p, available)|, p.times), min, count)
    && after == before + Firsts(Matching(p, available), taken)
    && before <= after <= before + available
    && |after| <= |before| + taken && |Matching(p, after)| >= taken
  }

  lemma TakesFirst(p: Pattern, available: set<Name>, keys: seq<Name>, min: nat, count: nat,
                   before: set<Name>, after: set<Name>, taken: nat)
    requires keys == Listed(Matching(p, available)) && taken == Wanted(Min(|keys|, p.times), min, count)
    requires after == before + Elements(keys[..taken])
    ensures Takes(p, available, min, count, before, after, taken)
  {
    FirstKeys(p, available, keys, taken, before, after);
  }

  /** As many counted as the available keys allow or the threshold asks for, at most
      what the result is worth. */
  ghost predicate Counted(ps: seq<Pattern>, min: nat, available: set<Name>, result: set<Name>, count: nat) {
    && count <= CappedTotal(ps, available) && count <= CappedTotal(ps, result)
    && (count < min ==> count == CappedTotal(ps, available))
    && count <= AtLeastOne(min)
  }

  /** What the loop over the optional patterns has taken and counted after some of them. */
  ghost predicate OptionalSoFar(ps: seq<Pattern>, min: nat, start: set<Name>, available: set<Name>,
                                result: set<Name>, count: nat) {
    && start <= result <= start + available && |result| <= |start| + count
    && Counted(ps, min, available, result, count)
    && result == start + OptionalFirsts(ps, min, available)
  }

  lemma CountStep(ps: seq<Pattern>, min: nat, available: set<Name>, before: set<Name>, after: set<Name>,
                  count: nat, taken: nat)
    requires ps != [] && Counted(ps[..|ps| - 1], min, available, before, count) && before <= after
    requires |ps| == 1 || count < min
    requires var p := ps[|ps| - 1];
             taken == Wanted(Min(|Matching(p, available)|, p.times), min, count) <= |Matching(p, after)|
    ensures Counted(ps, min, available, after, count + taken) && taken == Quota(ps, min, available)
  {
    CappedTotalMono(ps[..|ps| - 1], before, after);
  }

  lemma OptionalStep(all: seq<Pattern>, i: nat, min: nat, start: set<Name>, available: set<Name>,
                     before: set<Name>, after: set<Name>, count: nat, taken: nat)
    requires i < |all| && OptionalSoFar(all[..i], min, start, available, before, count)
    requires i == 0 || count < min
    requires Takes(all[i], available, min, count, before, after, taken)
    ensures OptionalSoFar(all[..i + 1], min, start, available, after, count + taken)
  {
    var ps := all[..i + 1];
    PrefixStep(all, i);
    CountStep(ps, min, available, before, after, count, taken);
    var init := OptionalFirsts(ps[..|ps| - 1], min, available);
    var more := Firsts(Matching(ps[|ps| - 1], available), taken);
    assert OptionalFirsts(ps, min, available) == init + more;
    assert start + init + more == start + (init + more);
  }

  /** The outcome of the loop: the names still needed are added, unless they do not suffice. */
  ghost predicate OptionalTaken(schema: Schema, start: set<Name>, available: set<Name>, r: Option<set<Name>>) {
    match r
    case None => CappedTotal(schema.optional, available) < schema.minOptional
    case Some(result) =>
      && start <= result <= start + available
      && |result| <= |start| + AtLeastOne(schema.minOptional)
      && CappedTotal(schema.optional, result) >= schema.minOptional
      && result == start + OptionalFirsts(schema.optional, schema.minOptional, available)
  }

  lemma OptionalDone(schema: Schema, i: nat, start: set<Name>, available: set<Name>, result: set<Name>, count: nat)
    requires 0 < i <= |schema.optional| && count >= schema.minOptional
    requires OptionalSoFar(schema.optional[..i], schema.minOptional, start, available, result, count)
    ensures OptionalTaken(schema, start, available, Some(result))
  {
    NothingMoreNeeded(schema.optional, i, schema.minOptional, available);
    CappedPrefix(schema.optional, i, result);
  }

  lemma OptionalEnds(schema: Schema, start: set<Name>, available: set<Name>, result: set<Name>, count: nat)
    requires var ps := schema.optional[..|schema.optional|];
             OptionalSoFar(ps, schema.minOptional, start, available, result, count)
    ensures OptionalTaken(schema, start, available, if count < schema.minOptional then None else Some(result))
  {
    assert schema.optional[..|schema.optional|] == schema.optional;
  }

  /** Once the threshold is reached the remaining patterns give nothing. */
  lemma {:induction false} NothingMoreNeeded(ps: seq<Pattern>, i: nat, min: nat, available: set<Name>)
    requires 0 < i <= |ps| && CappedTotal(ps[..i], available) >= min
    ensures OptionalFirsts(ps, min, available) == OptionalFirsts(ps[..i], min, available)
  {
    if i < |ps| {
      var init := ps[..|ps| - 1];
      assert init[..i] == ps[..i];
      NothingMoreNeeded(init, i, min, available);
      CappedPrefix(init, i, available);
      assert Firsts(Matching(ps[|ps| - 1], available), 0) == {};
    } else {
      assert ps[..i] == ps;
    }
  }

  lemma {:induction false} InRequiredFirsts(ps: seq<Pattern>, available: set<Name>, n: Name)
    ensures n in RequiredFirsts(ps, available)
       <==> exists i :: 0 <= i < |ps| && n in Firsts(Matching(ps[i], available), ps[i].times)
  {
    if ps != [] {
      var init := ps[..|ps| - 1];
      InRequiredFirsts(init, available, n);
      assert forall i :: 0 <= i < |init| ==> init[i] == ps[i];
    }
  }

  lemma {:induction false} InOptionalFirsts(ps: seq<Pattern>, min: nat, available: set<Name>, n: Name)
    ensures n in OptionalFirsts(ps, min, available)
       <==> exists i :: 0 <= i < |ps| && FirstFor(ps, i, min, available, n)
  {
    if ps != [] {
      var init, last := ps[..|ps| - 1], |ps| - 1;
      InOptionalFirsts(init, min, available, n);
      forall i | 0 <= i < last ensures FirstFor(init, i, min, available, n) == FirstFor(ps, i, min, available, n) {
        assert init[i] == ps[i] && init[..i + 1] == ps[..i + 1];
      }
      assert ps[..last + 1] == ps;
      assert n in OptionalFirsts(ps, min, available)
        <==> n in OptionalFirsts(init, min, available) || FirstFor(ps, last, min, available, n);
    }
  }

  lemma ChosenIff(schema: Schema, available: set<Name>, n: Name)
    ensures Chosen(schema, available, n)
       <==> n in RequiredFirsts(schema.required, available)
                 + OptionalFirsts(schema.optional, schema.minOptional, available)
  {
    InRequiredFirsts(schema.required, available, n);
    InOptionalFirsts(schema.optional, schema.minOptional, available, n);
  }

  /** The quotas are what the threshold asks for, pattern by pattern: none exceeds its
      multiplicity, and together they make up the threshold when the names suffice. */
  lemma {:induction false} QuotasAddUp(ps: seq<Pattern>, min: nat, available: set<Name>)
    requires ps != []
    ensures Quota(ps, min, available) <= ps[|ps| - 1].times
    ensures Quotas(ps, min, available) == if min == 0 then Quota(ps[..1], 0, available)
                                          else Min(CappedTotal(ps, available), min)
  {
    var init := ps[..|ps| - 1];
    if init == [] {
      assert ps[..1] == ps;
    } else {
      assert init[..1] == ps[..1];
      QuotasAddUp(init, min, available);
    }
  }

  ghost function Quotas(ps: seq<Pattern>, min: nat, available: set<Name>): nat {
    if ps == [] then 0 else Quotas(ps[..|ps| - 1], min, available) + Quota(ps, min, available)
  }

  /** Earlier patterns first: a later one gives names only when all the earlier ones have
      given what they can and the threshold is still not reached. */
  lemma EarlierFirst(ps: seq<Pattern>, i: nat, j: nat, min: nat, available: set<Name>)
    requires i < j < |ps| && Quota(ps[..j + 1], min, available) > 0
    ensures Quota(ps[..i + 1], min, available) == Min(|Matching(ps[i], available)|, ps[i].times)
    ensures CappedTotal(ps[..j], available) < min
  {
    PrefixStep(ps, i);
    PrefixStep(ps, j);
    assert ps[..j][..i + 1] == ps[..i + 1];
    CappedPrefix(ps[..j], i + 1, available);
  }

  /** Nobody is listed without need: a chosen name is one of the first matches, as many
      as its multiplicity says, of some pattern of the schema. */
  lemma ChosenIsOwed(schema: Schema, available: set<Name>, n: Name)
    requires Chosen(schema, available, n)
    ensures exists p :: p in schema.required + schema.optional && n in available && p.Matches(n)
                        && |Below(Matching(p, available), n)| < p.times
  {
    if i :| 0 <= i < |schema.required|
            && n in Firsts(Matching(schema.required[i], available), schema.required[i].times) {
      assert schema.required[i] in schema.required + schema.optional;
    } else {
      var i :| 0 <= i < |schema.optional| && FirstFor(schema.optional, i, schema.minOptional, available, n);
      QuotasAddUp(schema.optional[..i + 1], schema.minOptional, available);
      assert schema.optional[i] in schema.required + schema.optional;
    }
  }

  // ----- The first rule or any rule -----

  /** The documented reading: any one of the rules for the packet name may pass. */
  ghost predicate AcceptsAny(schemas: seq<Schema>, trusted: set<Name>, packetName: Name, signers: seq<Name>) {
    && Elements(signers) <= trusted
    && exists k :: 0 <= k < |schemas| && schemas[k].pktName.Matches(packetName) && Passes(schemas[k], signers)
  }

  /** Whatever list of trusted names passes one of the rules for this packet name
      passes the first of them. */
  ghost predicate FirstIsWeakest(schemas: seq<Schema>, trusted: set<Name>, packetName: Name) {
    var first := FirstMatch(schemas, packetName);
    first.Some? ==>
      forall k, signers | 0 <= k < |schemas| && schemas[k].pktName.Matches(packetName)
                          && Elements(signers) <= trusted ::
        Passes(schemas[k], signers) ==> Passes(first.value, signers)
  }

  /** The first match is the rule with the least position among those that match. */
  lemma {:induction false} FirstMatchIndex(schemas: seq<Schema>, packetName: Name)
    ensures match FirstMatch(schemas, packetName)
            case None => forall k :: 0 <= k < |schemas| ==> !schemas[k].pktName.Matches(packetName)
            case Some(rule) =>
              exists k :: 0 <= k < |schemas| && schemas[k] == rule && rule.pktName.Matches(packetName)
                          && forall j :: 0 <= j < k ==> !schemas[j].pktName.Matches(packetName)
  {
    if schemas != [] && !schemas[0].pktName.Matches(packetName) {
      FirstMatchIndex(schemas[1..], packetName);
      var first := FirstMatch(schemas[1..], packetName);
      if first.Some? {
        var k :| 0 <= k < |schemas[1..]| && schemas[1..][k] == first.value
                 && first.value.pktName.Matches(packetName)
                 && forall j :: 0 <= j < k ==> !schemas[1..][j].pktName.Matches(packetName);
        forall j | 0 <= j < k + 1 ensures !schemas[j].pktName.Matches(packetName) {
          if j > 0 { assert schemas[1..][j - 1] == schemas[j]; }
        }
        assert schemas[k + 1] == first.value;
      } else {
        forall k | 0 <= k < |schemas| ensures !schemas[k].pktName.Matches(packetName) {
          if k > 0 { assert schemas[1..][k - 1] == schemas[k]; }
        }
      }
    }
  }

  /** Deciding by the first rule never accepts what the documentation rejects, and
      accepts all of what it accepts exactly when the first rule is the weakest. */
  lemma FirstRuleDecides(schemas: seq<Schema>, trusted: set<Name>, packetName: Name)
    ensures forall signers :: Accepts(schemas, trusted, packetName, signers) ==>
              AcceptsAny(schemas, trusted, packetName, signers)
    ensures (forall signers :: Accepts(schemas, trusted, packetName, signers) <==>
               AcceptsAny(schemas, trusted, packetName, signers))
       <==> FirstIsWeakest(schemas, trusted, packetName)
  {
    FirstMatchIndex(schemas, packetName);
    var first := FirstMatch(schemas, packetName);
    if first.Some? {
      var f :| 0 <= f < |schemas| && schemas[f] == first.value;
      assert schemas[f].pktName.Matches(packetName);
    }
    if forall signers :: Accepts(schemas, trusted, packetName, signers) <==>
         AcceptsAny(schemas, trusted, packetName, signers) {
      forall k, signers | 0 <= k < |schemas| && schemas[k].pktName.Matches(packetName)
          && Elements(signers) <= trusted && Passes(schemas[k], signers)
        ensures first.Some? && Passes(first.value, signers)
      {
        assert AcceptsAny(schemas, trusted, packetName, signers);
      }
    }
  }

  /** In particular where at most one rule matches the name. */
  lemma OneRuleDecides(schemas: seq<Schema>, trusted: set<Name>, packetName: Name, signers: seq<Name>)
    requires forall i, j :: 0 <= i < j < |schemas| ==>
               !(schemas[i].pktName.Matches(packetName) && schemas[j].pktName.Matches(packetName))
    ensures Accepts(schemas, trusted, packetName, signers) <==> AcceptsAny(schemas, trusted, packetName, signers)
  {
    FirstMatchIndex(schemas, packetName);
    var first := FirstMatch(schemas, packetName);
    if first.Some? {
      var f :| 0 <= f < |schemas| && schemas[f] == first.value && first.value.pktName.Matches(packetName);
      assert forall k :: 0 <= k < |schemas| && schemas[k].pktName.Matches(packetName) ==> k == f;
    }
  }

  // ----- Properties of the specification functions -----

  /** Lists that are equal as multisets get the same aggregate key, and the same
      verdict from the container. */
  lemma EqualListsAgree(schemas: seq<Schema>, trusted: map<Name, Bls.Scalar>, packetName: Name,
                        a: seq<Name>, b: seq<Name>, uninitialised: Bls.Scalar)
    requires multiset(a) == multiset(b)
    ensures AggregatedKey(trusted, a, uninitialised) == AggregatedKey(trusted, b, uninitialised)
    ensures Accepts(schemas, trusted.Keys, packetName, a) <==> Accepts(schemas, trusted.Keys, packetName, b)
  {
    assert |a| == |multiset(a)| == |b|;
    assert forall n :: n in a <==> n in multiset(a);
    assert forall n :: n in b <==> n in multiset(b);
    assert Elements(a) == Elements(b);
    var rule := FirstMatch(schemas, packetName);
    if rule.Some? { PassesMono(rule.value, a, b); }
    if forall n :: n in a ==> n in trusted {
      KeysPermutation(trusted, a, b);
      Bls.SumPermutation(KeysOf(trusted, a), KeysOf(trusted, b));
    }
  }

  lemma KeysRemove(trusted: map<Name, Bls.Scalar>, s: seq<Name>, j: nat)
    requires (forall n :: n in s ==> n in trusted) && j < |s|
    ensures forall n :: n in s[..j] + s[j + 1..] ==> n in trusted
    ensures multiset(KeysOf(trusted, s)) == multiset(KeysOf(trusted, s[..j] + s[j + 1..])) + multiset{trusted[s[j]]}
  {
    var keys := KeysOf(trusted, s);
    var rest := s[..j] + s[j + 1..];
    assert KeysOf(trusted, rest) == keys[..j] + keys[j + 1..];
    assert keys == keys[..j] + [keys[j]] + keys[j + 1..];
  }

  lemma {:induction false} KeysPermutation(trusted: map<Name, Bls.Scalar>, a: seq<Name>, b: seq<Name>)
    requires multiset(a) == multiset(b)
    requires (forall n :: n in a ==> n in trusted) && (forall n :: n in b ==> n in trusted)
    ensures multiset(KeysOf(trusted, a)) == multiset(KeysOf(trusted, b))
  {
    if a == [] {
      assert |b| == |multiset(b)| == |multiset(a)|;
    } else {
      var j := SameEntry(a, b);
      KeysRemove(trusted, b, j);
      KeysRemove(trusted, a, 0);
      KeysPermutation(trusted, a[..0] + a[1..], b[..j] + b[j + 1..]);
    }
  }

  /** The first entry of one list is found in the other, and removing both leaves the rest equal. */
  lemma SameEntry(a: seq<Name>, b: seq<Name>) returns (j: nat)
    requires multiset(a) == multiset(b) && a != []
    ensures j < |b| && b[j] == a[0]
    ensures multiset(a[..0] + a[1..]) == multiset(b[..j] + b[j + 1..])
  {
    assert a[0] in multiset(b);
    j :| 0 <= j < |b| && b[j] == a[0];
    RemoveEntry(b, j);
    RemoveEntry(a, 0);
  }

  lemma RemoveEntry(s: seq<Name>, j: nat)
    requires j < |s|
    ensures multiset(s[..j] + s[j + 1..]) == multiset(s) - multiset{s[j]}
  {
    assert s == s[..j] + [s[j]] + s[j + 1..];
  }

  /** Once the container has accepted a non-empty list, aggregating its keys does
      not throw and does not depend on the uninitialised variable. */
  lemma AcceptedListAggregates(schemas: seq<Schema>, trusted: map<Name, Bls.Scalar>, packetName: Name,
                               signers: seq<Name>, uninitialised: Bls.Scalar)
    requires Accepts(schemas, trusted.Keys, packetName, signers) && signers != []
    ensures (forall n :: n in signers ==> n in trusted)
    ensures AggregatedKey(trusted, signers, uninitialised) == Some(Bls.Sum(KeysOf(trusted, signers)))
  {
    assert forall n :: n in signers ==> n in Elements(signers);
  }
}
