/** Runs and inputs that show where the program does less than its documentation
    suggests; each is the boundary of a condition stated in the other modules. */
module Findings {
  import opened Names
  import opened Patterns
  import opened Schemas
  import Replacement
  import Bls
  import Container
  import SignRequests
  import opened Sessions
  import opened SessionRuns

  const PART_A: Component := Component(GENERIC_COMPONENT, [65])
  const PART_B: Component := Component(GENERIC_COMPONENT, [66])
  const NAME_A: Name := [PART_A]
  const NAME_B: Name := [PART_B]
  const ANY: Component := Component(WILDCARD, [])

  lemma PlainMatch(n: Name, m: Name)
    requires n == NAME_A || n == NAME_B
    requires m == NAME_A || m == NAME_B
    ensures FromName(n).Matches(m) <==> n == m
  {
    assert NAME_A[0].value == [65] && NAME_B[0].value == [66];
  }

  // ----- An optional signer that cannot be replaced -----

  /** /A must sign, and at least one of the optional ones, of which there is only /B. */
  const PAIR_SCHEMA: Schema := Schema(FromName(NAME_A), [FromName(NAME_A)], [FromName(NAME_B)], 1)
  const PAIR: Config := Config({NAME_A, NAME_B}, PAIR_SCHEMA)
  const PAIR_START: Session := Session([NAME_A, NAME_B], [], [], Launch([NAME_A, NAME_B]), [], {})

  lemma PairMatching(s: set<Name>, n: Name)
    requires s <= {NAME_A, NAME_B} && n in {NAME_A, NAME_B}
    ensures Matching(FromName(n), s) == if n in s then {n} else {}
  {
    forall m | m in s ensures FromName(n).Matches(m) <==> n == m { PlainMatch(n, m); }
  }

  lemma OneTotal(p: Pattern, s: set<Name>)
    ensures CappedTotal([p], s) == Min(|Matching(p, s)|, p.times)
  {
    assert [p][..0] == [];
  }

  lemma PairPasses(s: set<Name>)
    requires s <= {NAME_A, NAME_B}
    ensures Satisfies(PAIR_SCHEMA, s) <==> s == {NAME_A, NAME_B}
  {
    PairMatching(s, NAME_A);
    PairMatching(s, NAME_B);
    OneTotal(FromName(NAME_B), s);
    assert FromName(NAME_A) in PAIR_SCHEMA.required;
  }

  lemma PairInitial()
    ensures Initial(PAIR, PAIR_START)
  {
    assert Elements([NAME_A, NAME_B]) == {NAME_A, NAME_B};
    PairPasses({NAME_A, NAME_B});
    assert NoDup(PAIR_START.signers) by { assert NAME_A[0].value != NAME_B[0].value; }
    PassesIsSatisfies(PAIR_SCHEMA, PAIR_START.signers);
  }

  /** Losing /B leaves the list [/A], and nobody new is asked. */
  lemma PairReplacement()
    ensures Replacement.Replace(PAIR_SCHEMA, {NAME_A}, [NAME_A, NAME_B], NAME_B) == ([NAME_A], [])
  {
    var start := Elements([NAME_A, NAME_B]) - {NAME_B};
    assert start == {NAME_A} by { assert NAME_A[0].value != NAME_B[0].value; }
    PlainMatch(NAME_A, NAME_B);
    var ps := PAIR_SCHEMA.required;
    assert ps[..0] == [];
    assert Replacement.RepairRequired(ps[..0], NAME_B, start, {NAME_A}) == Some(start);
    assert Replacement.RepairRequired(ps, NAME_B, start, {NAME_A}) == Some(start);
    PairMatching({NAME_A}, NAME_B);
    var qs := PAIR_SCHEMA.optional;
    assert qs[..0] == [];
    assert Replacement.RepairOptional(qs[..0], start, {NAME_A}) == None;
    assert Replacement.FindNewKey(start, FromName(NAME_B), {NAME_A}) == (false, []);
    assert Replacement.RepairOptional(qs, start, {NAME_A}) == None;
    AscendingUnique([NAME_A], Listed({NAME_A}));
    assert start - start == {};
    EmptyElements(Listed({}));
  }

  /** Two signers, the second of which can only be dropped from the list. */
  ghost predicate Pair(c: Config, s: Session, a: Name, b: Name) {
    && a != b
    && s == Session([a, b], [], [], [Rpc(a, Requested), Rpc(b, Requested)], [], {})
    && Replacement.Replace(c.schema, c.trusted - {b}, [a, b], b) == ([a], [])
  }

  /** One more event of a run. */
  lemma Extend(c: Config, s: Session, evs: seq<Event>, t: Session, e: Event)
    requires After(c, s, evs) == Some(t) && Enabled(t, e)
    ensures After(c, s, evs + [e]) == Some(Step(c, t, e))
  {
    assert (evs + [e])[..|evs + [e]| - 1] == evs;
  }

  lemma LoseSecond(c: Config, s: Session, t: Session, a: Name, b: Name)
    requires Pair(c, s, a, b) && t.signers == [a, b] && t.unavailable == {}
    requires |t.rpcs| == 2 && t.rpcs[1] == Rpc(b, Requested)
    ensures Step(c, t, RequestLost(1))
         == t.(signers := [a], rpcs := [t.rpcs[0], Rpc(b, Replaced)], unavailable := {b})
  {
    assert {} + {b} == {b};
    assert SetPhase(t.rpcs, 1, Replaced) + Launch([]) == [t.rpcs[0], Rpc(b, Replaced)];
  }

  /** Ack, poll and piece of the first signer. */
  lemma FirstSigns(c: Config, s: Session, evs: seq<Event>, t: Session, a: Name, rest: seq<Rpc>)
    requires After(c, s, evs) == Some(t) && t.rpcs == [Rpc(a, Requested)] + rest
    requires t.fetched == [] && t.arrivals == [] && t.callbacks == []
    ensures After(c, s, evs + [Ack(0)] + [Poll(0)] + [Piece(0, 7)])
         == Some(t.(fetched := [7], arrivals := [a], rpcs := [Rpc(a, Signed)] + rest,
                    callbacks := if |t.signers| == 1 then [Success(Bls.Sum([7]), t.signers)] else []))
  {
    Extend(c, s, evs, t, Ack(0));
    var t1 := t.(rpcs := [Rpc(a, Scheduled)] + rest);
    assert SetPhase(t.rpcs, 0, Scheduled) == t1.rpcs;
    Extend(c, s, evs + [Ack(0)], t1, Poll(0));
    var t2 := t.(rpcs := [Rpc(a, Polling)] + rest);
    assert SetPhase(t1.rpcs, 0, Polling) == t2.rpcs;
    Extend(c, s, evs + [Ack(0)] + [Poll(0)], t2, Piece(0, 7));
    assert SetPhase(t2.rpcs, 0, Signed) == [Rpc(a, Signed)] + rest;
    var reported := if |t.signers| == 1 then [Success(Bls.Sum([7]), t.signers)] else [];
    assert [] + [7] == [7] && [] + [a] == [a] && [] + reported == reported;
  }

  lemma PairIsPair()
    ensures Initial(PAIR, PAIR_START) && Pair(PAIR, PAIR_START, NAME_A, NAME_B)
  {
    PairInitial();
    PairReplacement();
    assert NAME_A[0].value != NAME_B[0].value;
    assert {NAME_A, NAME_B} - {NAME_B} == {NAME_A};
    assert Launch([NAME_A, NAME_B]) == [Rpc(NAME_A, Requested), Rpc(NAME_B, Requested)];
  }

  /** The second signer is lost before the first one signs. */
  lemma LostThenSigned(c: Config, s: Session, a: Name, b: Name) returns (evs: seq<Event>, t: Session)
    requires Pair(c, s, a, b)
    ensures After(c, s, evs) == Some(t) && Private(evs) && t.callbacks == [Success(Bls.Sum([7]), [a])]
  {
    Extend(c, s, [], s, RequestLost(1));
    LoseSecond(c, s, s, a, b);
    var t1 := s.(signers := [a], rpcs := [Rpc(a, Requested)] + [Rpc(b, Replaced)], unavailable := {b});
    assert [Rpc(a, Requested), Rpc(b, Replaced)] == t1.rpcs;
    FirstSigns(c, s, [] + [RequestLost(1)], t1, a, [Rpc(b, Replaced)]);
    evs := [] + [RequestLost(1)] + [Ack(0)] + [Poll(0)] + [Piece(0, 7)];
    t := After(c, s, evs).value;
  }

  /** The first signer signs before the second one is lost. */
  lemma SignedThenLost(c: Config, s: Session, a: Name, b: Name) returns (evs: seq<Event>, t: Session)
    requires Pair(c, s, a, b)
    ensures After(c, s, evs) == Some(t) && t.rpcs == [Rpc(a, Signed), Rpc(b, Replaced)]
    ensures t.callbacks == [] && t.signers == [a] && t.arrivals == [a]
  {
    assert s.rpcs == [Rpc(a, Requested)] + [Rpc(b, Requested)];
    FirstSigns(c, s, [], s, a, [Rpc(b, Requested)]);
    var before := [] + [Ack(0)] + [Poll(0)] + [Piece(0, 7)];
    var t1 := After(c, s, before).value;
    Extend(c, s, before, t1, RequestLost(1));
    LoseSecond(c, s, t1, a, b);
    evs, t := before + [RequestLost(1)], Step(c, t1, RequestLost(1));
  }

  /** Success is reported for a list that does not pass the schema: running out of
      optional signers is not treated as a failure. */
  lemma SuccessWithoutTheSchema() returns (c: Config, s: Session, evs: seq<Event>, t: Session, published: seq<Name>)
    ensures Reaches(c, s, evs, t) && Private(evs) && OneOptionalEach(c) && [] !in c.trusted
    ensures t.callbacks == [Success(Bls.Sum([7]), published)] && !Passes(c.schema, published)
  {
    c, s, published := PAIR, PAIR_START, [NAME_A];
    PairIsPair();
    evs, t := LostThenSigned(c, s, NAME_A, NAME_B);
    AloneFails();
  }

  lemma AloneFails()
    ensures !Passes(PAIR_SCHEMA, [NAME_A])
  {
    assert Elements([NAME_A]) == {NAME_A};
    PairPasses({NAME_A});
    assert NAME_A[0].value != NAME_B[0].value && NAME_B in {NAME_A, NAME_B};
    assert {NAME_A} != {NAME_A, NAME_B};
    assert NoDup([NAME_A]);
    PassesIsSatisfies(PAIR_SCHEMA, [NAME_A]);
  }

  /** The same loss after /A has signed: every RPC has ended, every listed signer has
      signed, and nothing is ever reported. */
  lemma SilentSession() returns (c: Config, s: Session, evs: seq<Event>, t: Session)
    ensures Reaches(c, s, evs, t) && NoneLive(t.rpcs) && NoDrops(t)
    ensures t.callbacks == [] && t.signers != [] && t.arrivals == t.signers
  {
    c, s := PAIR, PAIR_START;
    PairIsPair();
    evs, t := SignedThenLost(c, s, NAME_A, NAME_B);
  }

  // ----- A key that serves two optional patterns -----

  /** Losing a key that served two optional patterns costs two, one new key gains one:
      the new list fails although the available keys could pass. */
  lemma TwoPatternsLost() returns (schema: Schema, available: set<Name>, lost: Name)
    ensures Passes(schema, [lost]) && lost !in available && [] !in available
    ensures !Replacement.AtMostOne(schema.optional, lost) && !Replacement.AtMostOneShort(schema, [lost], lost)
    ensures var list := Replacement.Replace(schema, available, [lost], lost).0;
            list != [] && !Passes(schema, list) && Feasible(schema, available)
  {
    var p, q := Pattern([PART_A, ANY], 1), Pattern([ANY, PART_B], 1);
    lost := [PART_A, PART_B];
    var left, right: Name := [PART_A, PART_A], [PART_B, PART_B];
    TwoParts(PART_A, PART_B, p, q);
    schema := Schema(p, [], [p, q], 2);
    available := {left, right};
    CrossedPatterns(p, q, lost, left, right);
    TwoShort(schema, available, lost);
  }

  lemma TwoShort(schema: Schema, available: set<Name>, lost: Name)
    requires lost !in available && [] !in available
    requires var list := Replacement.Replace(schema, available, [lost], lost).0;
             list != [] && !Passes(schema, list) && Feasible(schema, available)
    ensures !Replacement.AtMostOneShort(schema, [lost], lost)
  {
    if Replacement.AtMostOneShort(schema, [lost], lost) {
      Replacement.ReplaceKeepsPassing(schema, available, [lost], lost);
    }
  }

  lemma TwoParts(a: Component, b: Component, p: Pattern, q: Pattern)
    requires a.value != b.value && a.kind != WILDCARD && b.kind != WILDCARD
    requires p == Pattern([a, ANY], 1) && q == Pattern([ANY, b], 1)
    ensures p.Matches([a, b]) && q.Matches([a, b]) && p.Matches([a, a]) && q.Matches([b, b])
    ensures !q.Matches([a, a]) && !p.Matches([b, b])
    ensures [a, b] != [a, a] && [a, b] != [b, b]
  {
    assert q.name[1] == b && [a, a][1] == a;
    assert p.name[0] == a && [b, b][0] == b;
    assert [a, b][1] == b && [a, b][0] == a;
  }

  lemma CrossedPatterns(p: Pattern, q: Pattern, lost: Name, left: Name, right: Name)
    requires p.times == 1 && q.times == 1 && left != [] && right != [] && lost != left && lost != right
    requires p.Matches(lost) && q.Matches(lost)
    requires p.Matches(left) && !q.Matches(left) && !p.Matches(right) && q.Matches(right)
    ensures var schema := Schema(p, [], [p, q], 2);
            && Passes(schema, [lost]) && !Replacement.AtMostOne(schema.optional, lost)
            && Replacement.Replace(schema, {left, right}, [lost], lost).0 == [left]
            && !Passes(schema, [left]) && Feasible(schema, {left, right})
  {
    var schema := Schema(p, [], [p, q], 2);
    assert schema.optional[0].Matches(lost) && schema.optional[1].Matches(lost);
    CrossedVerdict(p, q, {lost}, {lost}, {lost});
    assert Elements([lost]) == {lost};
    PassesIsSatisfies(schema, [lost]);
    CrossedVerdict(p, q, {left, right}, {left}, {right});
    FeasibleIsSatisfies(schema, {left, right});
    CrossedVerdict(p, q, {left}, {left}, {});
    assert Elements([left]) == {left} && NoDup([left]);
    PassesIsSatisfies(schema, [left]);
    assert Matching(p, {left, right}) == {left};
    OneKeyAdded(p, q, {left, right}, left);
    assert Elements([lost]) - {lost} == {};
    assert {} + {left} == {left};
    AscendingUnique([left], Listed({left}));
  }

  lemma CrossedVerdict(p: Pattern, q: Pattern, s: set<Name>, byP: set<Name>, byQ: set<Name>)
    requires p.times == 1 && q.times == 1 && byP <= s && byQ <= s
    requires forall n :: n in s ==> (p.Matches(n) <==> n in byP) && (q.Matches(n) <==> n in byQ)
    ensures Satisfies(Schema(p, [], [p, q], 2), s) <==> byP != {} && byQ != {}
  {
    TwoTotals(p, q, s);
    assert Matching(p, s) == byP && Matching(q, s) == byQ;
  }

  lemma TwoTotals(p: Pattern, q: Pattern, s: set<Name>)
    ensures CappedTotal([p, q], s) == Min(|Matching(p, s)|, p.times) + Min(|Matching(q, s)|, q.times)
  {
    assert [p, q][..1] == [p];
    OneTotal(p, s);
  }

  lemma OneKeyAdded(p: Pattern, q: Pattern, available: set<Name>, key: Name)
    requires p.times == 1 && Matching(p, available) == {key} && key != []
    ensures Replacement.RepairOptional([p, q], {}, available) == Some(key)
  {
    assert [p, q][..1] == [p] && [p][..0] == [];
    assert Replacement.RepairOptional([p][..0], {}, available) == None;
    assert Matching(p, {}) == {};
    assert Matching(p, available) - {} == {key};
    assert Replacement.FindNewKey({}, p, available) == (true, key);
    assert Replacement.RepairOptional([p], {}, available) == Some(key);
  }

  // ----- Cache resets -----

  /** One signer out of two, either of which replaces the other. */
  const EITHER: Schema := Schema(Pattern([ANY], 1), [], [Pattern([ANY], 1)], 1)

  lemma Swap(a: Name, b: Name)
    requires a != b && |a| == |b| == 1
    ensures Replacement.Replace(EITHER, {b}, [a], a) == ([b], [b])
  {
    var p := Pattern([ANY], 1);
    assert Elements([a]) - {a} == {};
    assert Matching(p, {b}) == {b} && Matching(p, {}) == {};
    assert Replacement.FindNewKey({}, p, {b}) == (true, b);
    assert [p][..0] == [];
    assert Replacement.RepairOptional([p][..0], {}, {b}) == None;
    assert Replacement.RepairOptional([p], {}, {b}) == Some(b);
    assert {} + {b} == {b} && {b} - {} == {b};
    AscendingUnique([b], Listed({b}));
  }

  /** A state in which one signer is asked and the cache is empty. */
  ghost predicate Asking(t: Session, a: Name) {
    t.signers == [a] && t.unavailable == {} && t.rpcs != [] && t.rpcs[|t.rpcs| - 1] == Rpc(a, Requested)
  }

  lemma AskTheOther(c: Config, s: Session, evs: seq<Event>, t: Session, a: Name, b: Name) returns (u: Session)
    requires After(c, s, evs) == Some(t) && Asking(t, a)
    requires a != b && |a| == |b| == 1 && c == Config({a, b}, EITHER)
    ensures After(c, s, evs + [RequestLost(|t.rpcs| - 1)] + [Reset]) == Some(u)
    ensures Asking(u, b) && |u.rpcs| == |t.rpcs| + 1
  {
    var i := |t.rpcs| - 1;
    Swap(a, b);
    assert {a, b} - ({} + {a}) == {b};
    Extend(c, s, evs, t, RequestLost(i));
    var mid := Step(c, t, RequestLost(i));
    assert mid.signers == [b] && mid.rpcs == SetPhase(t.rpcs, i, Replaced) + Launch([b]);
    Extend(c, s, evs + [RequestLost(i)], mid, Reset);
    u := Step(c, mid, Reset);
    assert Launch([b])[0] == Rpc(b, Requested);
  }

  /** With cache resets the contacts of a session are not bounded by its trusted keys:
      two keys can be asked any number of times. */
  lemma {:induction false} ResetsUnboundContact(a: Name, b: Name, n: nat)
    returns (s: Session, evs: seq<Event>, t: Session)
    requires a != b && |a| == |b| == 1
    ensures Reaches(Config({a, b}, EITHER), s, evs, t) && |t.rpcs| == n + 1
    ensures Asking(t, a) || Asking(t, b)
  {
    var c := Config({a, b}, EITHER);
    if n == 0 {
      s, evs := Session([a], [], [], Launch([a]), [], {}), [];
      t := s;
      EitherInitial(a, b);
    } else {
      var before, prev;
      s, before, prev := ResetsUnboundContact(a, b, n - 1);
      if Asking(prev, a) {
        t := AskTheOther(c, s, before, prev, a, b);
      } else {
        assert {a, b} == {b, a};
        t := AskTheOther(c, s, before, prev, b, a);
      }
      evs := before + [RequestLost(|prev.rpcs| - 1)] + [Reset];
    }
  }

  lemma EitherInitial(a: Name, b: Name)
    requires a != b && |a| == |b| == 1
    ensures Initial(Config({a, b}, EITHER), Session([a], [], [], Launch([a]), [], {}))
  {
    var p := Pattern([ANY], 1);
    assert Elements([a]) == {a} && Matching(p, {a}) == {a};
    OneTotal(p, {a});
    PassesIsSatisfies(EITHER, [a]);
  }

  /** A reset after the loss brings /B back in reach, although the list was already
      published without it. */
  lemma ResetHidesTheLoss() returns (c: Config, s: Session, evs: seq<Event>, t: Session, published: seq<Name>)
    ensures Reaches(c, s, evs, t) && OneOptionalEach(c) && [] !in c.trusted
    ensures t.callbacks == [Success(Bls.Sum([7]), published)]
    ensures !Passes(c.schema, published) && Feasible(c.schema, Elements(published) + Reachable(c, t))
  {
    c, s, published := PAIR, PAIR_START, [NAME_A];
    PairIsPair();
    var before, prev := LostThenSigned(c, s, NAME_A, NAME_B);
    AloneFails();
    Extend(c, s, before, prev, Reset);
    evs, t := before + [Reset], Step(c, prev, Reset);
    PairPasses({NAME_A, NAME_B});
    assert Elements(published) + Reachable(c, t) == {NAME_A, NAME_B};
    FeasibleIsSatisfies(c.schema, {NAME_A, NAME_B});
  }

  // ----- Several rules for one name -----

  /** Two rules for /A: the first asks for /A, the second for /B. A packet signed by /B
      passes one of them, and is rejected. */
  lemma LaterRuleIgnored() returns (schemas: seq<Schema>, trusted: set<Name>, packetName: Name, signers: seq<Name>)
    ensures NoDup(signers)
    ensures Container.AcceptsAny(schemas, trusted, packetName, signers)
    ensures !Container.Accepts(schemas, trusted, packetName, signers)
  {
    var a, b := FromName(NAME_A), FromName(NAME_B);
    schemas := [Schema(a, [a], [], 0), Schema(a, [b], [], 0)];
    trusted, packetName, signers := {NAME_A, NAME_B}, NAME_A, [NAME_B];
    PlainMatch(NAME_A, NAME_A);
    assert NAME_A[0].value != NAME_B[0].value;
    assert Elements(signers) == {NAME_B};
    PairMatching({NAME_B}, NAME_A);
    PairMatching({NAME_B}, NAME_B);
    PassesIsSatisfies(schemas[0], signers);
    PassesIsSatisfies(schemas[1], signers);
    assert a in schemas[0].required && |Matching(a, {NAME_B})| == 0;
    assert Satisfies(schemas[1], {NAME_B});
    assert schemas[1].pktName.Matches(packetName) && Passes(schemas[1], signers);
  }

  // ----- Repeated names in a list -----

  lemma OneCounts(p: Pattern, s: seq<Name>, n: Name)
    requires p.Matches(n)
    ensures Count(p, s + [n]) == Count(p, s) + 1
  {
    assert (s + [n])[..|s + [n]| - 1] == s && (s + [n])[|s + [n]| - 1] == n;
  }

  /** Twice the same name passes a schema that asks for two different ones. */
  lemma TwicePasses(n: Name)
    ensures var p := Pattern(n, 2);
            Passes(Schema(p, [p], [], 0), [n] + [n]) && |Matching(p, {n})| == 1
  {
    var p := Pattern(n, 2);
    OneCounts(p, [], n);
    assert [] + [n] == [n];
    OneCounts(p, [n], n);
    assert Matching(p, {n}) == {n};
  }

  lemma TwiceDiffers(n: Name)
    ensures Elements([n] + [n]) == Elements([n]) == {n} && multiset([n] + [n]) != multiset([n])
  {
    assert multiset([n] + [n])[n] == 2 && multiset([n])[n] == 1;
  }

  /** [/A, /A] names the same signers as [/A] and is not equal to it, and it passes a
      schema that asks for two different names. */
  lemma RepeatedName() returns (a: seq<Name>, b: seq<Name>, schema: Schema)
    ensures Elements(a) == Elements(b) && multiset(a) != multiset(b)
    ensures Passes(schema, a) && !Satisfies(schema, Elements(a))
  {
    var p := Pattern(NAME_A, 2);
    a, b, schema := [NAME_A] + [NAME_A], [NAME_A], Schema(p, [p], [], 0);
    TwiceDiffers(NAME_A);
    TwicePasses(NAME_A);
    assert p in schema.required;
  }

  // ----- A parameter packet that does not authenticate -----

  /** Its request answers any number of polls with 102 and nothing else. */
  lemma {:induction false} StuckRequest(signer: SignRequests.Signer, n: nat) returns (evs: seq<SignRequests.Event>)
    ensures SignRequests.Admissible(signer, evs)
    ensures var r := SignRequests.After(signer, evs);
            && !r.fetching && r.code == SignRequests.Processing && r.version == n && |r.replies| == n
            && r.answering && forall j :: 0 <= j < n ==> r.replies[j] == SignRequests.Still(j + 1)
  {
    if n == 0 {
      evs := [SignRequests.Fetched(SignRequests.Parameter(false, None))];
      assert evs[..0] == [];
      assert SignRequests.Admissible(signer, evs[..0]);
    } else {
      var before := StuckRequest(signer, n - 1);
      evs := before + [SignRequests.Poll(true)];
      assert evs[..|evs| - 1] == before;
    }
  }
}
