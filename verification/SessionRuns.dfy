/** What every run of a session guarantees. */
module SessionRuns {
  import opened Names
  import opened Schemas
  import opened Replacement
  import Bls
  import Container
  import opened Sessions

  ghost predicate NoneLive(rpcs: seq<Rpc>) { forall i :: 0 <= i < |rpcs| ==> !rpcs[i].phase.Live() }

  predicate IsLoss(e: Event) { e.RequestLost? || e.ResultLost? }

  predicate IsDrop(e: Event) { e.BadAck? || e.BadResult? }

  function LostRpc(e: Event): nat
    requires IsLoss(e)
  {
    e.i
  }

  // ----- Callbacks -----

  /** In every run success is reported at most once, never beside a failure, for the
      list as it is, and then no RPC is live. */
  lemma CallbackSafety(c: Config, s: Session, evs: seq<Event>, t: Session, k: nat)
    requires Reaches(c, s, evs, t) && k < |t.callbacks| && t.callbacks[k].Success?
    ensures t.callbacks == [Success(Bls.Sum(t.fetched), t.signers)]
    ensures NoneLive(t.rpcs) && |t.fetched| == |t.signers| && t.fetched != []
  {
    RunKeepsGood(c, s, evs, t);
  }

  /** After a success nothing of the session changes any more. */
  lemma {:induction false} SuccessIsFinal(c: Config, s: Session, evs: seq<Event>, t: Session, i: nat, u: Session)
    requires i <= |evs| && Reaches(c, s, evs[..i], u) && Reaches(c, s, evs, t)
    requires u.callbacks != [] && u.callbacks[0].Success?
    ensures t == u.(unavailable := t.unavailable)
  {
    if i == |evs| {
      assert evs[..i] == evs;
    } else {
      var prev := Before(c, s, evs);
      assert evs[..|evs| - 1][..i] == evs[..i];
      SuccessIsFinal(c, s, evs[..|evs| - 1], prev, i, u);
      CallbackSafety(c, s, evs[..|evs| - 1], prev, 0);
    }
  }

  function InPhaseCount(rpcs: seq<Rpc>, q: Phase): (n: nat)
    ensures n <= |rpcs|
  {
    if rpcs == [] then 0 else
      InPhaseCount(rpcs[..|rpcs| - 1], q) + if rpcs[|rpcs| - 1].phase == q then 1 else 0
  }

  lemma {:induction false} CountAfterMove(rpcs: seq<Rpc>, i: nat, phase: Phase, q: Phase)
    requires i < |rpcs| && rpcs[i].phase != q
    ensures InPhaseCount(SetPhase(rpcs, i, phase), q) == InPhaseCount(rpcs, q) + if phase == q then 1 else 0
  {
    var moved, n := SetPhase(rpcs, i, phase), |rpcs| - 1;
    if i == n {
      assert moved[..n] == rpcs[..n];
    } else {
      assert moved[..n] == SetPhase(rpcs[..n], i, phase);
      CountAfterMove(rpcs[..n], i, phase, q);
    }
  }

  lemma {:induction false} CountAfterLaunch(rpcs: seq<Rpc>, keys: seq<Name>, q: Phase)
    requires q != Requested
    ensures InPhaseCount(rpcs + Launch(keys), q) == InPhaseCount(rpcs, q)
  {
    if keys == [] {
      assert rpcs + Launch(keys) == rpcs;
    } else {
      var all, n := rpcs + Launch(keys), |keys| - 1;
      assert all[..|all| - 1] == rpcs + Launch(keys[..n]);
      assert all[|all| - 1] == Rpc(keys[n], Requested);
      CountAfterLaunch(rpcs, keys[..n], q);
    }
  }

  /** What a step does to the RPCs in a final phase that comes with a loss. */
  lemma StepCounts(c: Config, s: Session, e: Event, q: Phase)
    requires Enabled(s, e) && (q.Abandoned? || q.Replaced?)
    ensures InPhaseCount(Step(c, s, e).rpcs, q) == InPhaseCount(s.rpcs, q)
              + if IsLoss(e) && Step(c, s, e).rpcs[LostRpc(e)].phase == q then 1 else 0
  {
    match e {
      case Ack(i) => CountAfterMove(s.rpcs, i, Scheduled, q);
      case BadAck(i) => CountAfterMove(s.rpcs, i, Dropped, q);
      case Poll(i) => CountAfterMove(s.rpcs, i, Polling, q);
      case Processing(i) => CountAfterMove(s.rpcs, i, Scheduled, q);
      case Piece(i, _) => CountAfterMove(s.rpcs, i, Signed, q);
      case BadResult(i) => CountAfterMove(s.rpcs, i, Dropped, q);
      case RequestLost(i) => LossCounts(c, s, i, q);
      case ResultLost(i) => LossCounts(c, s, i, q);
      case OtherMarks(_) =>
      case Reset =>
    }
  }

  lemma LossCounts(c: Config, s: Session, i: nat, q: Phase)
    requires i < |s.rpcs| && s.rpcs[i].phase.Live() && (q.Abandoned? || q.Replaced?)
    ensures InPhaseCount(Lose(c, s, i).rpcs, q) == InPhaseCount(s.rpcs, q)
              + if Lose(c, s, i).rpcs[i].phase == q then 1 else 0
  {
    var lost := s.rpcs[i].key;
    CountAfterMove(s.rpcs, i, Abandoned, q);
    CountAfterMove(s.rpcs, i, Replaced, q);
    CountAfterLaunch(SetPhase(s.rpcs, i, Replaced),
                     Replace(c.schema, c.trusted - (s.unavailable + {lost}), s.signers, lost).1, q);
  }

  /** The failures reported: one for each signer that was lost without a replacement list,
      and one at the start when there is nobody to ask. */
  lemma {:induction false} FailuresAreAbandonments(c: Config, s: Session, evs: seq<Event>, t: Session)
    requires Reaches(c, s, evs, t)
    ensures OnlyFailures(t.callbacks) ==>
              |t.callbacks| == InPhaseCount(t.rpcs, Abandoned) + if s.signers == [] then 1 else 0
  {
    if evs == [] {
      CountAfterLaunch([], s.signers, Abandoned);
      assert [] + Launch(s.signers) == s.rpcs;
    } else {
      var prev, e := Before(c, s, evs), evs[|evs| - 1];
      FailuresAreAbandonments(c, s, evs[..|evs| - 1], prev);
      StepAbandons(c, prev, e);
    }
  }

  lemma StepAbandons(c: Config, s: Session, e: Event)
    requires Enabled(s, e)
    ensures OnlyFailures(Step(c, s, e).callbacks) ==>
              && OnlyFailures(s.callbacks)
              && |Step(c, s, e).callbacks| - |s.callbacks|
                 == InPhaseCount(Step(c, s, e).rpcs, Abandoned) - InPhaseCount(s.rpcs, Abandoned)
  {
    var t := Step(c, s, e);
    assert s.callbacks <= t.callbacks;
    assert e.Piece? && t.callbacks != s.callbacks ==> t.callbacks[|s.callbacks|].Success?;
    StepCounts(c, s, e, Abandoned);
  }

  // ----- Dropped replies -----

  lemma {:induction false} DropStays(c: Config, s: Session, evs: seq<Event>, t: Session)
    requires After(c, s, evs) == Some(t) && exists e :: e in evs && IsDrop(e)
    ensures exists j :: InPhase(t, j, Dropped)
  {
    var init, e := evs[..|evs| - 1], evs[|evs| - 1];
    var prev := Before(c, s, evs);
    assert evs == init + [e];
    if IsDrop(e) {
      assert InPhase(t, e.i, Dropped);
    } else {
      var d :| d in evs && IsDrop(d);
      assert d in init;
      DropStays(c, s, init, prev);
      var j :| InPhase(prev, j, Dropped);
      StepKeepsFinal(c, prev, e, j);
      assert InPhase(t, j, Dropped);
    }
  }

  /** An RPC that has ended keeps its number, key and phase. */
  lemma StepKeepsFinal(c: Config, s: Session, e: Event, j: nat)
    requires Enabled(s, e) && j < |s.rpcs| && !s.rpcs[j].phase.Live()
    ensures j < |Step(c, s, e).rpcs| && Step(c, s, e).rpcs[j] == s.rpcs[j]
  {
  }

  /** One discarded reply is enough: such a run never reports success. */
  lemma DroppedNeverSucceeds(c: Config, s: Session, evs: seq<Event>, t: Session)
    requires Reaches(c, s, evs, t) && exists e :: e in evs && IsDrop(e)
    ensures OnlyFailures(t.callbacks)
  {
    RunKeepsGood(c, s, evs, t);
    DropStays(c, s, evs, t);
  }

  // ----- Pieces -----

  /** Every stored piece was made by the signer asked, with its secret, on one message. */
  ghost predicate HonestPieces(c: Config, s: Session, evs: seq<Event>, secrets: map<Name, Bls.Scalar>, h: Bls.Scalar) {
    evs == [] ||
    (HonestPieces(c, s, evs[..|evs| - 1], secrets, h) &&
     (After(c, s, evs).Some? && evs[|evs| - 1].Piece? ==>
        var key := Before(c, s, evs).rpcs[evs[|evs| - 1].i].key;
        key in secrets && evs[|evs| - 1].signature == Bls.Mul(secrets[key], h)))
  }

  /** The nameless list of pieces is the arrivals' pieces, in order. */
  lemma {:induction false} FetchedAreArrivals(c: Config, s: Session, evs: seq<Event>, t: Session,
                                              secrets: map<Name, Bls.Scalar>, h: Bls.Scalar)
    requires Reaches(c, s, evs, t) && HonestPieces(c, s, evs, secrets, h)
    ensures forall n :: n in t.arrivals ==> n in secrets
    ensures t.fetched == Bls.Pieces(Container.KeysOf(secrets, t.arrivals), h)
  {
    if evs != [] {
      var prev, e := Before(c, s, evs), evs[|evs| - 1];
      FetchedAreArrivals(c, s, evs[..|evs| - 1], prev, secrets, h);
      if e.Piece? {
        var key := prev.rpcs[e.i].key;
        assert Container.KeysOf(secrets, t.arrivals) == Container.KeysOf(secrets, prev.arrivals) + [secrets[key]];
        assert t.fetched == Bls.Pieces(Container.KeysOf(secrets, prev.arrivals), h) + [Bls.Mul(secrets[key], h)];
      }
    }
  }

  /** End to end, the signature: whatever was acked, polled, lost and replaced and in
      whatever order the pieces came, a reported signature verifies under the keys of
      exactly the published list. */
  lemma SuccessVerifies(c: Config, s: Session, evs: seq<Event>, t: Session,
                        secrets: map<Name, Bls.Scalar>, h: Bls.Scalar, signature: Bls.Scalar, published: seq<Name>)
    requires Reaches(c, s, evs, t) && HonestPieces(c, s, evs, secrets, h)
    requires Success(signature, published) in t.callbacks
    ensures NoDup(published) && published != [] && Elements(published) <= c.trusted
    ensures forall n :: n in published ==> n in secrets
    ensures Bls.Verifies(Bls.Sum(Container.KeysOf(secrets, published)), h, signature)
  {
    var k :| 0 <= k < |t.callbacks| && t.callbacks[k] == Success(signature, published);
    CallbackSafety(c, s, evs, t, k);
    RunKeepsGood(c, s, evs, t);
    EqualSizesMeanAllSigned(c, t);
    FetchedAreArrivals(c, s, evs, t, secrets, h);
    assert forall n :: n in published ==> n in Elements(published);
    assert forall n :: n in Elements(t.arrivals) ==> n in t.arrivals;
    SameMultiset(t.arrivals, published);
    Container.KeysPermutation(secrets, t.arrivals, published);
    Bls.AggregateVerifies(Container.KeysOf(secrets, t.arrivals), Container.KeysOf(secrets, published), h);
  }

  // ----- The schema over runs -----

  /** The signer list meets the required part of the schema in every reachable state. */
  lemma {:induction false} RequiredAlwaysMet(c: Config, s: Session, evs: seq<Event>, t: Session)
    requires Reaches(c, s, evs, t)
    ensures MeetsRequired(c.schema, Elements(t.signers))
  {
    if evs == [] {
      PassesIsSatisfies(c.schema, s.signers);
    } else {
      var prev, e := Before(c, s, evs), evs[|evs| - 1];
      RequiredAlwaysMet(c, s, evs[..|evs| - 1], prev);
      if IsLoss(e) {
        var lost := prev.rpcs[e.i].key;
        ReplaceKeepsRequired(c.schema, c.trusted - (prev.unavailable + {lost}), prev.signers, lost);
      }
    }
  }

  ghost function Reachable(c: Config, t: Session): set<Name> { c.trusted - t.unavailable }

  /** Without a cache reset names only become unavailable. */
  lemma {:induction false} NoResetShrinks(c: Config, s: Session, evs: seq<Event>, t: Session)
    requires After(c, s, evs) == Some(t) && evs != [] && evs[|evs| - 1] != Reset
    ensures Reachable(c, t) <= Reachable(c, Before(c, s, evs))
  {
  }

  /** A lost key is never live elsewhere: it is on the list until it is replaced. */
  lemma LiveIsListed(c: Config, s: Session, i: nat)
    requires Good(c, s) && i < |s.rpcs| && s.rpcs[i].phase.Live()
    ensures s.rpcs[i].key in s.signers && s.rpcs[i].key in c.trusted
  {
    assert s.rpcs[i].key in CurrentKeys(s.rpcs);
    assert s.rpcs[i].key in Elements(s.signers);
  }

  /** Each trusted key serves at most one optional pattern. */
  ghost predicate OneOptionalEach(c: Config) { forall n :: n in c.trusted ==> AtMostOne(c.schema.optional, n) }

  /** Whenever a passing list loses a key, it is at most one short without it. */
  ghost predicate NeverTwoShort(c: Config, s: Session, evs: seq<Event>) {
    evs == [] ||
    (NeverTwoShort(c, s, evs[..|evs| - 1]) &&
     (After(c, s, evs).Some? && IsLoss(evs[|evs| - 1]) && Passes(c.schema, Before(c, s, evs).signers) ==>
        var prev := Before(c, s, evs);
        AtMostOneShort(c.schema, prev.signers, prev.rpcs[LostRpc(evs[|evs| - 1])].key)))
  }

  lemma {:induction false} OneRoleNeverTwoShort(c: Config, s: Session, evs: seq<Event>)
    requires Initial(c, s) && OneOptionalEach(c)
    ensures NeverTwoShort(c, s, evs)
  {
    if evs != [] {
      var init, e := evs[..|evs| - 1], evs[|evs| - 1];
      OneRoleNeverTwoShort(c, s, init);
      if After(c, s, evs).Some? && IsLoss(e) && Passes(c.schema, Before(c, s, evs).signers) {
        var prev := Before(c, s, evs);
        RunKeepsGood(c, s, init, prev);
        LiveIsListed(c, prev, e.i);
        OneRoleOneShort(c.schema, prev.signers, prev.rpcs[e.i].key);
      }
    }
  }

  /** The list passes as soon as the schema can be passed with its names and those in reach. */
  ghost predicate PassesIfPossible(c: Config, t: Session) {
    Satisfies(c.schema, Elements(t.signers) + Reachable(c, t)) ==> Passes(c.schema, t.signers)
  }

  lemma ShrinkKeepsPossible(c: Config, s: Session, t: Session)
    requires PassesIfPossible(c, s) && t.signers == s.signers && Reachable(c, t) <= Reachable(c, s)
    ensures PassesIfPossible(c, t)
  {
    var before, after := Elements(s.signers) + Reachable(c, s), Elements(t.signers) + Reachable(c, t);
    if Satisfies(c.schema, after) { SatisfiesMono(c.schema, after, before); }
  }

  lemma LossKeepsPossible(c: Config, s: Session, i: nat)
    requires PassesIfPossible(c, s) && [] !in c.trusted
    requires i < |s.rpcs| && s.rpcs[i].phase.Live() && Consistent(c, s)
    requires Passes(c.schema, s.signers) ==> AtMostOneShort(c.schema, s.signers, s.rpcs[i].key)
    ensures PassesIfPossible(c, Lose(c, s, i))
  {
    var t, lost := Lose(c, s, i), s.rpcs[i].key;
    var available := c.trusted - (s.unavailable + {lost});
    assert Reachable(c, t) == available;
    if Replace(c.schema, available, s.signers, lost).0 == [] {
      ShrinkKeepsPossible(c, s, t);
    } else if Passes(c.schema, s.signers) {
      ReplaceKeepsPassing(c.schema, available, s.signers, lost);
    } else {
      LossAddsNothing(c, s, i);
    }
  }

  /** Only names in reach are added to the list. */
  lemma LossListsReachable(c: Config, s: Session, i: nat)
    requires i < |s.rpcs|
    ensures Elements(Lose(c, s, i).signers) <= Elements(s.signers) + Reachable(c, Lose(c, s, i))
    ensures Reachable(c, Lose(c, s, i)) <= Reachable(c, s)
  {
    var lost := s.rpcs[i].key;
    var available := c.trusted - (s.unavailable + {lost});
    ReplaceConserves(c.schema, available, s.signers, lost);
    LoseMarks(c, s, i);
  }

  /** What is listed or in reach after a loss was so before. */
  lemma LossAddsNothing(c: Config, s: Session, i: nat)
    requires i < |s.rpcs|
    ensures var t := Lose(c, s, i);
            Satisfies(c.schema, Elements(t.signers) + Reachable(c, t)) ==>
            Satisfies(c.schema, Elements(s.signers) + Reachable(c, s))
  {
    LossListsReachable(c, s, i);
    var t := Lose(c, s, i);
    var before, after := Elements(s.signers) + Reachable(c, s), Elements(t.signers) + Reachable(c, t);
    assert after <= before;
    if Satisfies(c.schema, after) { SatisfiesMono(c.schema, after, before); }
  }

  lemma {:induction false} RunPassesIfPossible(c: Config, s: Session, evs: seq<Event>, t: Session)
    requires Reaches(c, s, evs, t) && Reset !in evs && NeverTwoShort(c, s, evs) && [] !in c.trusted
    ensures PassesIfPossible(c, t)
  {
    if evs != [] {
      var init, prev, e := evs[..|evs| - 1], Before(c, s, evs), evs[|evs| - 1];
      assert evs == init + [e];
      RunPassesIfPossible(c, s, init, prev);
      if IsLoss(e) {
        RunKeepsGood(c, s, init, prev);
        LossKeepsPossible(c, prev, e.i);
      } else {
        NoResetShrinks(c, s, evs, t);
        ShrinkKeepsPossible(c, prev, t);
      }
    }
  }

  /** Exactly when a reachable list passes, whoever else uses the container: without a
      reset and as long as no loss leaves a passing list two short, it does if and only
      if some list of its own names and the names still in reach does. */
  lemma ListPassesIff(c: Config, s: Session, evs: seq<Event>, t: Session)
    requires Reaches(c, s, evs, t) && Reset !in evs && NeverTwoShort(c, s, evs) && [] !in c.trusted
    ensures Passes(c.schema, t.signers) <==> Feasible(c.schema, Elements(t.signers) + Reachable(c, t))
  {
    RunPassesIfPossible(c, s, evs, t);
    RunKeepsGood(c, s, evs, t);
    WithAvailable(c.schema, t.signers, Reachable(c, t));
    FeasibleIsSatisfies(c.schema, Elements(t.signers) + Reachable(c, t));
  }

  ghost predicate LossFallsShort(c: Config, s: Session, e: Event)
    requires Enabled(s, e)
  {
    IsLoss(e) &&
    var lost := s.rpcs[LostRpc(e)].key;
    var available := c.trusted - (s.unavailable + {lost});
    && Replace(c.schema, available, s.signers, lost).0 != []
    && FallsShort(c.schema, Elements(s.signers) - {lost}, available, lost)
  }

  ghost predicate NeverFallsShort(c: Config, s: Session, evs: seq<Event>)
    requires After(c, s, evs).Some?
  {
    evs == [] ||
    (NeverFallsShort(c, s, evs[..|evs| - 1]) && !LossFallsShort(c, Before(c, s, evs), evs[|evs| - 1]))
  }

  ghost predicate AlwaysPassesIfPossible(c: Config, s: Session, evs: seq<Event>)
    requires After(c, s, evs).Some?
  {
    && PassesIfPossible(c, After(c, s, evs).value)
    && (evs != [] ==> AlwaysPassesIfPossible(c, s, evs[..|evs| - 1]))
  }

  lemma LossFallsShortIff(c: Config, s: Session, e: Event)
    requires PassesIfPossible(c, s) && Consistent(c, s) && MeetsRequired(c.schema, Elements(s.signers))
    requires Enabled(s, e) && e != Reset
    ensures PassesIfPossible(c, Step(c, s, e)) <==> !LossFallsShort(c, s, e)
  {
    var t := Step(c, s, e);
    if IsLoss(e) {
      var lost := s.rpcs[e.i].key;
      var available := c.trusted - (s.unavailable + {lost});
      assert Reachable(c, t) == available;
      if Replace(c.schema, available, s.signers, lost).0 == [] {
        ShrinkKeepsPossible(c, s, t);
      } else {
        ReplaceFallsShortIff(c.schema, available, s.signers, lost);
      }
    } else {
      ShrinkKeepsPossible(c, s, t);
    }
  }

  /** Exactly when a session without a reset never has a failing list that the names in
      reach could complete: none of its losses falls short. */
  lemma {:induction false} AlwaysPassesIfPossibleIff(c: Config, s: Session, evs: seq<Event>, t: Session)
    requires Reaches(c, s, evs, t) && Reset !in evs
    ensures AlwaysPassesIfPossible(c, s, evs) <==> NeverFallsShort(c, s, evs)
  {
    if evs != [] {
      var init, prev, e := evs[..|evs| - 1], Before(c, s, evs), evs[|evs| - 1];
      assert evs == init + [e];
      AlwaysPassesIfPossibleIff(c, s, init, prev);
      if AlwaysPassesIfPossible(c, s, init) {
        RunKeepsGood(c, s, init, prev);
        RequiredAlwaysMet(c, s, init, prev);
        LossFallsShortIff(c, prev, e);
      }
    }
  }

  /** Without a reset, and with each key serving at most one optional pattern, every
      reachable list passes the schema or the schema can no longer be passed. */
  lemma ListPassesOrInfeasible(c: Config, s: Session, evs: seq<Event>, t: Session)
    requires Reaches(c, s, evs, t) && Reset !in evs && OneOptionalEach(c) && [] !in c.trusted
    ensures Passes(c.schema, t.signers) || !Feasible(c.schema, Reachable(c, t))
  {
    OneRoleNeverTwoShort(c, s, evs);
    ListPassesIff(c, s, evs, t);
    if Feasible(c.schema, Reachable(c, t)) {
      FeasibleMono(c.schema, Reachable(c, t), Elements(t.signers) + Reachable(c, t));
    }
  }

  /** Failure is never premature: without a reset, a session on a schema that asks
      for somebody reports failure only when no available keys can pass. */
  lemma {:induction false} FailureMeansInfeasible(c: Config, s: Session, evs: seq<Event>, t: Session)
    requires Reaches(c, s, evs, t) && Reset !in evs && [] !in c.trusted && !Passes(c.schema, [])
    ensures Failure in t.callbacks ==> !Feasible(c.schema, Reachable(c, t))
  {
    if evs != [] && Failure in t.callbacks {
      var init, prev, e := evs[..|evs| - 1], Before(c, s, evs), evs[|evs| - 1];
      assert evs == init + [e];
      FailureMeansInfeasible(c, s, init, prev);
      NoResetShrinks(c, s, evs, t);
      if Failure in prev.callbacks {
        if Feasible(c.schema, Reachable(c, t)) { FeasibleMono(c.schema, Reachable(c, t), Reachable(c, prev)); }
      } else {
        assert IsLoss(e);
        RequiredAlwaysMet(c, s, init, prev);
        ReplaceFailsOnlyIfInfeasible(c.schema, Reachable(c, t), prev.signers, prev.rpcs[e.i].key);
      }
    }
  }

  /** Nobody but the session touches the container's cache. */
  ghost predicate Private(evs: seq<Event>) { forall e :: e in evs ==> !e.OtherMarks? && !e.Reset? }

  ghost predicate CountedKeysUnmarked(s: Session) {
    forall i :: 0 <= i < |s.rpcs| && (s.rpcs[i].phase.Live() || s.rpcs[i].phase.Signed?) ==>
      s.rpcs[i].key !in s.unavailable
  }

  /** The RPCs after a loss: one has ended, the others are kept, and the new ones are
      for different keys from `news`. */
  ghost predicate LossShape(before: seq<Rpc>, after: seq<Rpc>, i: nat, news: set<Name>)
    requires i < |before|
  {
    && |before| <= |after|
    && (forall j :: 0 <= j < |before| && j != i ==> after[j] == before[j])
    && after[i].key == before[i].key && (after[i].phase.Abandoned? || after[i].phase.Replaced?)
    && (forall j :: |before| <= j < |after| ==> after[j].phase == Requested && after[j].key in news)
    && (forall j, k :: |before| <= j < k < |after| ==> after[j].key != after[k].key)
  }

  lemma LaunchShape(rpcs: seq<Rpc>, i: nat, phase: Phase, added: seq<Name>, news: set<Name>)
    requires i < |rpcs| && (phase.Abandoned? || phase.Replaced?) && NoDup(added) && Elements(added) <= news
    ensures LossShape(rpcs, SetPhase(rpcs, i, phase) + Launch(added), i, news)
  {
    var after := SetPhase(rpcs, i, phase) + Launch(added);
    forall j | |rpcs| <= j < |after| ensures after[j] == Rpc(added[j - |rpcs|], Requested) && after[j].key in news {
      assert added[j - |rpcs|] in Elements(added);
    }
  }

  /** New RPCs are for available keys that were not on the list. */
  lemma LoseShape(c: Config, s: Session, i: nat)
    requires Good(c, s) && i < |s.rpcs|
    ensures Lose(c, s, i).unavailable == s.unavailable + {s.rpcs[i].key}
    ensures LossShape(s.rpcs, Lose(c, s, i).rpcs, i, c.trusted - Lose(c, s, i).unavailable - CurrentKeys(s.rpcs))
  {
    var phase, added := LoseLaunches(c, s, i);
    LaunchShape(s.rpcs, i, phase, added, c.trusted - Lose(c, s, i).unavailable - CurrentKeys(s.rpcs));
  }

  lemma LoseLaunches(c: Config, s: Session, i: nat) returns (phase: Phase, added: seq<Name>)
    requires Good(c, s) && i < |s.rpcs|
    ensures phase.Abandoned? || phase.Replaced?
    ensures Lose(c, s, i).rpcs == SetPhase(s.rpcs, i, phase) + Launch(added)
    ensures Lose(c, s, i).unavailable == s.unavailable + {s.rpcs[i].key}
    ensures NoDup(added) && Elements(added) <= c.trusted - Lose(c, s, i).unavailable - CurrentKeys(s.rpcs)
  {
    var lost := s.rpcs[i].key;
    var available := c.trusted - (s.unavailable + {lost});
    var list;
    var r := Replace(c.schema, available, s.signers, lost);
    list, added := r.0, r.1;
    ReplaceConserves(c.schema, available, s.signers, lost);
    phase := if list == [] then Abandoned else Replaced;
    if list == [] {
      assert SetPhase(s.rpcs, i, phase) + Launch([]) == SetPhase(s.rpcs, i, phase);
    }
  }

  lemma LoseKeepsUnmarked(c: Config, s: Session, i: nat)
    requires Good(c, s) && CountedKeysUnmarked(s) && i < |s.rpcs| && s.rpcs[i].phase.Live()
    ensures CountedKeysUnmarked(Lose(c, s, i))
  {
    LoseShape(c, s, i);
    var t := Lose(c, s, i);
    forall j | 0 <= j < |t.rpcs| && (t.rpcs[j].phase.Live() || t.rpcs[j].phase.Signed?)
      ensures t.rpcs[j].key !in t.unavailable
    {
      if j < |s.rpcs| { assert j != i && t.rpcs[j] == s.rpcs[j] && s.rpcs[j].key != s.rpcs[i].key; }
    }
  }

  lemma {:induction false} PrivateKeepsUnmarked(c: Config, s: Session, evs: seq<Event>, t: Session)
    requires Reaches(c, s, evs, t) && Private(evs)
    ensures CountedKeysUnmarked(t)
  {
    if evs == [] {
      forall i | 0 <= i < |s.rpcs| ensures s.rpcs[i].key !in s.unavailable {
        assert s.signers[i] in Elements(s.signers);
      }
    } else {
      var init, prev, e := evs[..|evs| - 1], Before(c, s, evs), evs[|evs| - 1];
      assert evs == init + [e];
      PrivateKeepsUnmarked(c, s, init, prev);
      if IsLoss(e) {
        RunKeepsGood(c, s, init, prev);
        LoseKeepsUnmarked(c, prev, e.i);
      }
    }
  }

  /** Each loss in a private run takes one more key out of reach: the decreasing
      measure of replacements. */
  lemma LossShrinks(c: Config, s: Session, evs: seq<Event>, t: Session)
    requires Reaches(c, s, evs, t) && Private(evs) && evs != [] && IsLoss(evs[|evs| - 1])
    ensures Reachable(c, t) < Reachable(c, Before(c, s, evs))
    ensures |Reachable(c, t)| == |Reachable(c, Before(c, s, evs))| - 1
  {
    var init, prev, e := evs[..|evs| - 1], Before(c, s, evs), evs[|evs| - 1];
    assert evs == init + [e];
    PrivateKeepsUnmarked(c, s, init, prev);
    RunKeepsGood(c, s, init, prev);
    LossTakesOne(c, prev, e.i);
  }

  lemma LossTakesOne(c: Config, s: Session, i: nat)
    requires Good(c, s) && CountedKeysUnmarked(s) && i < |s.rpcs| && s.rpcs[i].phase.Live()
    ensures Reachable(c, Lose(c, s, i)) < Reachable(c, s)
    ensures |Reachable(c, Lose(c, s, i))| == |Reachable(c, s)| - 1
  {
    LiveIsListed(c, s, i);
    LoseMarks(c, s, i);
    TakeOne(c.trusted, s.unavailable, s.rpcs[i].key);
  }

  lemma TakeOne(trusted: set<Name>, unavailable: set<Name>, lost: Name)
    requires lost in trusted && lost !in unavailable
    ensures trusted - (unavailable + {lost}) < trusted - unavailable
    ensures |trusted - (unavailable + {lost})| == |trusted - unavailable| - 1
  {
    assert lost in trusted - unavailable;
    assert trusted - unavailable == trusted - (unavailable + {lost}) + {lost};
  }

  lemma LoseMarks(c: Config, s: Session, i: nat)
    requires i < |s.rpcs|
    ensures Lose(c, s, i).unavailable == s.unavailable + {s.rpcs[i].key}
  {
  }

  /** Exactly when a success is worth something: without a reset and as long as no loss
      leaves a passing list two short, the published list passes the schema if and only
      if some list of the published names and the names never lost does. */
  lemma PublishedPassesIff(c: Config, s: Session, evs: seq<Event>, t: Session,
                           signature: Bls.Scalar, published: seq<Name>)
    requires Reaches(c, s, evs, t) && Reset !in evs && NeverTwoShort(c, s, evs) && [] !in c.trusted
    requires Success(signature, published) in t.callbacks
    ensures Passes(c.schema, published) <==> Feasible(c.schema, Elements(published) + Reachable(c, t))
  {
    var k :| 0 <= k < |t.callbacks| && t.callbacks[k] == Success(signature, published);
    CallbackSafety(c, s, evs, t, k);
    ListPassesIff(c, s, evs, t);
  }

  /** Alone on its container a session publishes only names still in reach, and so the
      condition is that the keys never lost can pass the schema. */
  lemma PrivatePublishedPassesIff(c: Config, s: Session, evs: seq<Event>, t: Session,
                                  signature: Bls.Scalar, published: seq<Name>)
    requires Reaches(c, s, evs, t) && Private(evs) && NeverTwoShort(c, s, evs) && [] !in c.trusted
    requires Success(signature, published) in t.callbacks
    ensures Elements(published) <= Reachable(c, t)
    ensures Passes(c.schema, published) <==> Feasible(c.schema, Reachable(c, t))
  {
    var k :| 0 <= k < |t.callbacks| && t.callbacks[k] == Success(signature, published);
    CallbackSafety(c, s, evs, t, k);
    RunKeepsGood(c, s, evs, t);
    PrivateKeepsUnmarked(c, s, evs, t);
    forall n | n in Elements(published) ensures n in Reachable(c, t) {
      assert n in CurrentKeys(t.rpcs);
      var i :| 0 <= i < |t.rpcs| && !t.rpcs[i].phase.Replaced? && t.rpcs[i].key == n;
    }
    PublishedPassesIff(c, s, evs, t, signature, published);
    assert Elements(published) + Reachable(c, t) == Reachable(c, t);
  }

  // ----- Bounded contact -----

  /** All RPCs ever started are for different trusted keys, and a replaced key is marked. */
  ghost predicate ContactedOnce(c: Config, s: Session) {
    && (forall i, j :: 0 <= i < j < |s.rpcs| ==> s.rpcs[i].key != s.rpcs[j].key)
    && (forall i :: 0 <= i < |s.rpcs| ==> s.rpcs[i].key in c.trusted)
    && (forall i :: 0 <= i < |s.rpcs| && s.rpcs[i].phase.Replaced? ==> s.rpcs[i].key in s.unavailable)
  }

  lemma LoseKeepsContactedOnce(c: Config, s: Session, i: nat)
    requires Good(c, s) && ContactedOnce(c, s) && i < |s.rpcs| && s.rpcs[i].phase.Live()
    ensures ContactedOnce(c, Lose(c, s, i))
  {
    LoseShape(c, s, i);
    var t := Lose(c, s, i);
    forall j | 0 <= j < |s.rpcs|
      ensures t.rpcs[j].key == s.rpcs[j].key && t.rpcs[j].key in t.unavailable + CurrentKeys(s.rpcs)
    {
      if j != i && !s.rpcs[j].phase.Replaced? { assert s.rpcs[j].key in CurrentKeys(s.rpcs); }
    }
    forall j, k | 0 <= j < k < |t.rpcs| ensures t.rpcs[j].key != t.rpcs[k].key {
      if k < |s.rpcs| { assert t.rpcs[k].key == s.rpcs[k].key; }
    }
  }

  lemma StepKeepsContactedOnce(c: Config, s: Session, e: Event)
    requires Good(c, s) && ContactedOnce(c, s) && Enabled(s, e) && e != Reset
    ensures ContactedOnce(c, Step(c, s, e))
  {
    if IsLoss(e) {
      LoseKeepsContactedOnce(c, s, e.i);
    } else {
      var t := Step(c, s, e);
      assert |t.rpcs| == |s.rpcs|;
      assert forall j :: 0 <= j < |s.rpcs| ==> t.rpcs[j].key == s.rpcs[j].key;
      assert forall j :: 0 <= j < |s.rpcs| && t.rpcs[j].phase.Replaced? ==> s.rpcs[j].phase.Replaced?;
    }
  }

  lemma {:induction false} NoResetContactsOnce(c: Config, s: Session, evs: seq<Event>, t: Session)
    requires Reaches(c, s, evs, t) && Reset !in evs
    ensures ContactedOnce(c, t)
  {
    if evs == [] {
      forall i | 0 <= i < |s.rpcs| ensures s.rpcs[i].key in c.trusted {
        assert s.signers[i] in Elements(s.signers);
      }
    } else {
      var init, prev, e := evs[..|evs| - 1], Before(c, s, evs), evs[|evs| - 1];
      assert evs == init + [e];
      NoResetContactsOnce(c, s, init, prev);
      RunKeepsGood(c, s, init, prev);
      StepKeepsContactedOnce(c, prev, e);
    }
  }

  function Losses(evs: seq<Event>): nat {
    if evs == [] then 0 else Losses(evs[..|evs| - 1]) + if IsLoss(evs[|evs| - 1]) then 1 else 0
  }

  function LostRpcs(rpcs: seq<Rpc>): nat { InPhaseCount(rpcs, Abandoned) + InPhaseCount(rpcs, Replaced) }

  /** Every replacement call belongs to one RPC that ended lost. */
  lemma {:induction false} LossesAreLostRpcs(c: Config, s: Session, evs: seq<Event>, t: Session)
    requires Reaches(c, s, evs, t)
    ensures Losses(evs) == LostRpcs(t.rpcs)
  {
    if evs == [] {
      CountAfterLaunch([], s.signers, Abandoned);
      CountAfterLaunch([], s.signers, Replaced);
      assert [] + Launch(s.signers) == s.rpcs;
    } else {
      var prev, e := Before(c, s, evs), evs[|evs| - 1];
      LossesAreLostRpcs(c, s, evs[..|evs| - 1], prev);
      StepLoses(c, prev, e);
    }
  }

  lemma StepLoses(c: Config, s: Session, e: Event)
    requires Enabled(s, e)
    ensures LostRpcs(Step(c, s, e).rpcs) == LostRpcs(s.rpcs) + if IsLoss(e) then 1 else 0
  {
    StepCounts(c, s, e, Abandoned);
    StepCounts(c, s, e, Replaced);
    if IsLoss(e) { LossEnds(c, s, e.i); }
  }

  lemma LossEnds(c: Config, s: Session, i: nat)
    requires i < |s.rpcs|
    ensures i < |Lose(c, s, i).rpcs|
    ensures Lose(c, s, i).rpcs[i].phase.Abandoned? || Lose(c, s, i).rpcs[i].phase.Replaced?
  {
  }

  lemma {:induction false} CountsFit(rpcs: seq<Rpc>)
    ensures LostRpcs(rpcs) <= |rpcs|
  {
    if rpcs != [] { CountsFit(rpcs[..|rpcs| - 1]); }
  }

  /** Without a cache reset a session contacts each trusted key at most once, so the
      RPCs and the replacement calls are each at most the trusted keys. */
  lemma BoundedContact(c: Config, s: Session, evs: seq<Event>, t: Session)
    requires Reaches(c, s, evs, t) && Reset !in evs
    ensures forall i, j :: 0 <= i < j < |t.rpcs| ==> t.rpcs[i].key != t.rpcs[j].key
    ensures |t.rpcs| <= |c.trusted| && Losses(evs) <= |c.trusted|
  {
    NoResetContactsOnce(c, s, evs, t);
    LossesAreLostRpcs(c, s, evs, t);
    CountsFit(t.rpcs);
    var keys: seq<Name> := seq(|t.rpcs|, i requires 0 <= i < |t.rpcs| => t.rpcs[i].key);
    NoDupSize(keys);
    assert Elements(keys) <= c.trusted;
    SubsetSize(Elements(keys), c.trusted);
  }

  // ----- Quiescence -----

  ghost predicate NoDrops(s: Session) { forall i :: 0 <= i < |s.rpcs| ==> !s.rpcs[i].phase.Dropped? }

  /** A loss of a signer whose absence leaves nothing to ask for: others are listed, they
      fill every required pattern of the lost key, and they fill or exhaust every
      optional pattern. */
  ghost predicate ShrinksOnly(c: Config, s: Session, e: Event)
    requires Enabled(s, e)
  {
    IsLoss(e) &&
    var lost := s.rpcs[LostRpc(e)].key;
    var left := Elements(s.signers) - {lost};
    left != {} && NothingToAdd(c.schema, left, c.trusted - (s.unavailable + {lost}), lost)
  }

  /** All pieces are in and nothing is abandoned or dropped: sizes are equal. */
  lemma AllSignedMeansEqualSizes(c: Config, s: Session)
    requires Consistent(c, s) && AllSigned(s.rpcs)
    ensures |s.fetched| == |s.signers|
  {
    forall n ensures n in CurrentKeys(s.rpcs) <==> n in KeysIn(s.rpcs, Signed) {
      if n in CurrentKeys(s.rpcs) {
        var i :| 0 <= i < |s.rpcs| && !s.rpcs[i].phase.Replaced? && s.rpcs[i].key == n;
        assert s.rpcs[i].phase == Signed;
      }
      if n in KeysIn(s.rpcs, Signed) {
        var i :| 0 <= i < |s.rpcs| && s.rpcs[i].phase == Signed && s.rpcs[i].key == n;
        assert !s.rpcs[i].phase.Replaced?;
      }
    }
    assert CurrentKeys(s.rpcs) == KeysIn(s.rpcs, Signed);
    NoDupSize(s.arrivals);
    NoDupSize(s.signers);
  }

  lemma NothingAbandoned(c: Config, s: Session)
    requires Good(c, s) && s.callbacks == [] && NoneLive(s.rpcs) && NoDrops(s)
    ensures AllSigned(s.rpcs)
  {
    assert KeysIn(s.rpcs, Abandoned) == {};
    assert forall i :: 0 <= i < |s.rpcs| && s.rpcs[i].phase == Abandoned ==> s.rpcs[i].key in KeysIn(s.rpcs, Abandoned);
  }

  /** Exactly when a session ends in silence, in one step: the event that ends its last
      live RPC, where no reply was dropped, leaves it unreported if and only if nothing
      was reported before and it is a loss that leaves nothing to ask for. */
  lemma SilentIff(c: Config, s: Session, e: Event)
    requires Good(c, s) && Enabled(s, e) && !NoneLive(s.rpcs)
    requires NoneLive(Step(c, s, e).rpcs) && NoDrops(Step(c, s, e))
    ensures Step(c, s, e).callbacks == [] <==> s.callbacks == [] && ShrinksOnly(c, s, e)
  {
    if IsLoss(e) {
      SilentLossIff(c, s, e);
    } else if e.Piece? {
      LastPieceReports(c, s, e.i, e.signature);
    } else {
      OtherStepsEndNothing(c, s, e);
    }
  }

  lemma OtherStepsEndNothing(c: Config, s: Session, e: Event)
    requires Enabled(s, e) && !IsLoss(e) && !e.Piece? && !NoneLive(s.rpcs)
    ensures !NoneLive(Step(c, s, e).rpcs) || !NoDrops(Step(c, s, e))
  {
    if IsDrop(e) {
      IsDropped(c, s, e);
    } else if e.Ack? || e.Poll? || e.Processing? {
      StaysLive(c, s, e);
    }
  }

  lemma SilentLossIff(c: Config, s: Session, e: Event)
    requires Enabled(s, e) && IsLoss(e) && NoneLive(Step(c, s, e).rpcs)
    ensures Step(c, s, e).callbacks == [] <==> s.callbacks == [] && ShrinksOnly(c, s, e)
  {
    var lost := s.rpcs[e.i].key;
    ReplaceIdleIff(c.schema, c.trusted - (s.unavailable + {lost}), s.signers, lost);
    NewRpcIsLive(c, s, e.i);
  }

  lemma LastPieceReports(c: Config, s: Session, i: nat, piece: Bls.Scalar)
    requires Good(c, s) && InPhase(s, i, Polling)
    requires NoneLive(Store(s, i, piece).rpcs) && NoDrops(Store(s, i, piece))
    ensures Store(s, i, piece).callbacks != []
  {
    var t := Store(s, i, piece);
    StoreKeepsGood(c, s, i, piece);
    if t.callbacks == [] {
      NothingAbandoned(c, t);
      AllSignedMeansEqualSizes(c, t);
    }
  }

  lemma StaysLive(c: Config, s: Session, e: Event)
    requires Enabled(s, e) && (e.Ack? || e.Poll? || e.Processing?)
    ensures !NoneLive(Step(c, s, e).rpcs)
  {
    assert Step(c, s, e).rpcs[e.i].phase.Live();
  }

  lemma IsDropped(c: Config, s: Session, e: Event)
    requires Enabled(s, e) && IsDrop(e)
    ensures !NoDrops(Step(c, s, e))
  {
    assert Step(c, s, e).rpcs[e.i].phase.Dropped?;
  }

  lemma NewRpcIsLive(c: Config, s: Session, i: nat)
    requires i < |s.rpcs|
    ensures var lost := s.rpcs[i].key;
            var (list, added) := Replace(c.schema, c.trusted - (s.unavailable + {lost}), s.signers, lost);
            list != [] && added != [] ==> !NoneLive(Lose(c, s, i).rpcs)
  {
    var lost := s.rpcs[i].key;
    var (list, added) := Replace(c.schema, c.trusted - (s.unavailable + {lost}), s.signers, lost);
    if list != [] && added != [] {
      assert Lose(c, s, i).rpcs[|s.rpcs|] == Launch(added)[0];
      assert Lose(c, s, i).rpcs[|s.rpcs|].phase.Live();
    }
  }

  lemma InitialIsLive(c: Config, s: Session)
    requires Initial(c, s) && s.signers != []
    ensures !NoneLive(s.rpcs)
  {
    assert s.rpcs[0] == Launch(s.signers)[0] && s.rpcs[0].phase.Live();
  }

  /** Somewhere in the run a loss only shrank the list. */
  ghost predicate SomeShrink(c: Config, s: Session, evs: seq<Event>)
    requires After(c, s, evs).Some?
  {
    evs != [] &&
    (SomeShrink(c, s, evs[..|evs| - 1]) || ShrinksOnly(c, Before(c, s, evs), evs[|evs| - 1]))
  }

  /** The event that ended the last live RPC of the run left nothing to ask for, and
      nothing had been reported before it. */
  ghost predicate EndsByShrinking(c: Config, s: Session, evs: seq<Event>)
    requires After(c, s, evs).Some?
  {
    evs != [] &&
    var prev := Before(c, s, evs);
    if NoneLive(prev.rpcs) then EndsByShrinking(c, s, evs[..|evs| - 1])
    else prev.callbacks == [] && ShrinksOnly(c, prev, evs[|evs| - 1])
  }

  /** Exactly when a finished run stays silent. */
  lemma {:induction false} SilentRunIff(c: Config, s: Session, evs: seq<Event>, t: Session)
    requires Reaches(c, s, evs, t) && NoneLive(t.rpcs) && NoDrops(t)
    ensures t.callbacks == [] <==> EndsByShrinking(c, s, evs)
  {
    if evs == [] {
      if s.signers != [] { InitialIsLive(c, s); }
    } else {
      var init, prev, e := evs[..|evs| - 1], Before(c, s, evs), evs[|evs| - 1];
      RunKeepsGood(c, s, init, prev);
      if NoneLive(prev.rpcs) {
        DropsStay(c, prev, e);
        SilentRunIff(c, s, init, prev);
      } else {
        SilentIff(c, prev, e);
      }
    }
  }

  /** Quiescence: in a run without dropped replies in which no loss leaves nothing to ask
      for, once no RPC is live the session has reported. */
  lemma QuiescentMeansReported(c: Config, s: Session, evs: seq<Event>, t: Session)
    requires Reaches(c, s, evs, t) && NoneLive(t.rpcs) && NoDrops(t) && !SomeShrink(c, s, evs)
    ensures t.callbacks != []
  {
    SilentRunIff(c, s, evs, t);
    if EndsByShrinking(c, s, evs) { EndingIsSome(c, s, evs); }
  }

  lemma {:induction false} EndingIsSome(c: Config, s: Session, evs: seq<Event>)
    requires After(c, s, evs).Some? && EndsByShrinking(c, s, evs)
    ensures SomeShrink(c, s, evs)
  {
    if NoneLive(Before(c, s, evs).rpcs) { EndingIsSome(c, s, evs[..|evs| - 1]); }
  }

  lemma DropsStay(c: Config, s: Session, e: Event)
    requires Enabled(s, e) && NoDrops(Step(c, s, e)) && NoneLive(s.rpcs)
    ensures NoDrops(s) && Step(c, s, e).callbacks == s.callbacks
  {
  }
}
