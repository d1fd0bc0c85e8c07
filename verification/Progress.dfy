/** What a session can still do: every live RPC can be brought to its end, and a session
    that has neither reported nor been stuck can still report a success. */
module Progress {
  import opened Names
  import opened Schemas
  import opened Sessions
  import opened SessionRuns
  import Bls

  /** Equal states and the same event give equal states. */
  lemma SameLast(c: Config, s: Session, evs: seq<Event>, t: Session, more: seq<Event>)
    requires evs != [] && more != [] && evs[|evs| - 1] == more[|more| - 1]
    requires After(c, s, evs[..|evs| - 1]) == After(c, t, more[..|more| - 1])
    ensures After(c, s, evs) == After(c, t, more)
  {
  }

  lemma DropLast(evs: seq<Event>, more: seq<Event>)
    requires more != []
    ensures var all := evs + more;
            && all[..|all| - 1] == evs + more[..|more| - 1] && all[|all| - 1] == more[|more| - 1]
  {
  }

  /** Two runs in a row. */
  lemma {:induction false} RunsCompose(c: Config, s: Session, evs: seq<Event>, t: Session, more: seq<Event>)
    requires After(c, s, evs) == Some(t)
    ensures After(c, s, evs + more) == After(c, t, more)
  {
    if more == [] {
      assert evs + more == evs;
    } else {
      RunsCompose(c, s, evs, t, more[..|more| - 1]);
      DropLast(evs, more);
      SameLast(c, s, evs + more, t, more);
    }
  }

  lemma OneEvent(c: Config, s: Session, e: Event)
    requires Enabled(s, e)
    ensures After(c, s, [e]) == Some(Step(c, s, e))
  {
    assert [e][..0] == [];
  }

  // ----- One RPC -----

  /** n times the signer answers that it is still processing, and is polled again. */
  function Waiting(i: nat, n: nat): seq<Event> {
    if n == 0 then [] else Waiting(i, n - 1) + [Processing(i)] + [Poll(i)]
  }

  /** A poll answered by "still processing" leads to the next poll, any number of times,
      and changes nothing. */
  lemma {:induction false} WaitingChangesNothing(c: Config, s: Session, i: nat, n: nat)
    requires InPhase(s, i, Polling)
    ensures After(c, s, Waiting(i, n)) == Some(s)
  {
    if n > 0 {
      WaitingChangesNothing(c, s, i, n - 1);
      var evs := Waiting(i, n - 1);
      var scheduled := Step(c, s, Processing(i));
      assert InPhase(scheduled, i, Scheduled);
      var again := Step(c, scheduled, Poll(i));
      assert again.rpcs == s.rpcs;
      assert (evs + [Processing(i)])[..|evs|] == evs;
      assert (evs + [Processing(i)] + [Poll(i)])[..|evs| + 1] == evs + [Processing(i)];
    }
  }

  /** What brings a live RPC to its poll. */
  function ToPoll(phase: Phase, i: nat): seq<Event>
    requires phase.Live()
  {
    match phase
    case Requested => [Ack(i)] + [Poll(i)]
    case Scheduled => [Poll(i)]
    case Polling => []
  }

  lemma ReachesPoll(c: Config, s: Session, i: nat)
    requires i < |s.rpcs| && s.rpcs[i].phase.Live()
    ensures After(c, s, ToPoll(s.rpcs[i].phase, i)) == Some(s.(rpcs := SetPhase(s.rpcs, i, Polling)))
  {
    var end := s.(rpcs := SetPhase(s.rpcs, i, Polling));
    match s.rpcs[i].phase {
      case Requested =>
        var acked := Step(c, s, Ack(i));
        OneEvent(c, s, Ack(i));
        OneEvent(c, acked, Poll(i));
        RunsCompose(c, s, [Ack(i)], acked, [Poll(i)]);
        assert Step(c, acked, Poll(i)).rpcs == end.rpcs;
      case Scheduled => OneEvent(c, s, Poll(i));
      case Polling => assert end.rpcs == s.rpcs;
    }
  }

  /** A whole conversation from the RPC's present phase to its piece. */
  function Conversation(phase: Phase, i: nat, n: nat, piece: Bls.Scalar): seq<Event>
    requires phase.Live()
  {
    ToPoll(phase, i) + (Waiting(i, n) + [Piece(i, piece)])
  }

  /** From every live RPC, whatever its number and however often the signer first says
      that it is still processing, a run ends in its piece stored. The pieces of the
      others, their RPCs, the list and the cache stay as they are. */
  lemma LiveRpcCanSign(c: Config, s: Session, i: nat, n: nat, piece: Bls.Scalar)
    requires i < |s.rpcs| && s.rpcs[i].phase.Live()
    ensures var after := After(c, s, Conversation(s.rpcs[i].phase, i, n, piece));
            && after.Some?
            && after.value.rpcs == s.rpcs[i := Rpc(s.rpcs[i].key, Signed)]
            && after.value.fetched == s.fetched + [piece] && after.value.arrivals == s.arrivals + [s.rpcs[i].key]
            && after.value.signers == s.signers && after.value.unavailable == s.unavailable
            && after.value.callbacks == s.callbacks
                 + (if |s.fetched| + 1 == |s.signers| then [Success(Bls.Sum(s.fetched + [piece]), s.signers)] else [])
  {
    var polling := s.(rpcs := SetPhase(s.rpcs, i, Polling));
    ReachesPoll(c, s, i);
    WaitingChangesNothing(c, polling, i, n);
    OneEvent(c, polling, Piece(i, piece));
    RunsCompose(c, polling, Waiting(i, n), polling, [Piece(i, piece)]);
    RunsCompose(c, s, ToPoll(s.rpcs[i].phase, i), polling, Waiting(i, n) + [Piece(i, piece)]);
  }

  // ----- The whole session -----

  ghost predicate Succeeded(t: Session) { t.callbacks != [] && t.callbacks[0].Success? }

  /** Nothing reported, nothing dropped, and somebody still to answer. */
  ghost predicate Open(t: Session) { t.callbacks == [] && NoDrops(t) && !NoneLive(t.rpcs) }

  lemma {:induction false} QuietIsHonest(c: Config, s: Session, evs: seq<Event>, more: seq<Event>,
                                         secrets: map<Name, Bls.Scalar>, h: Bls.Scalar)
    requires HonestPieces(c, s, evs, secrets, h) && forall e :: e in more ==> !e.Piece?
    ensures HonestPieces(c, s, evs + more, secrets, h)
  {
    if more == [] {
      assert evs + more == evs;
    } else {
      var init := more[..|more| - 1];
      assert (evs + more)[..|evs + more| - 1] == evs + init;
      assert more[|more| - 1] in more && forall e :: e in init ==> e in more;
      QuietIsHonest(c, s, evs, init, secrets, h);
    }
  }

  /** The next live signer signs: one more piece, honest if the run was. */
  lemma SignNext(c: Config, s: Session, evs: seq<Event>, t: Session, i: nat,
                 secrets: map<Name, Bls.Scalar>, h: Bls.Scalar) returns (more: seq<Event>, u: Session)
    requires Reaches(c, s, evs, t)
    requires i < |t.rpcs| && t.rpcs[i].phase.Live() && t.rpcs[i].key in secrets
    ensures Reaches(c, s, evs + more, u)
    ensures HonestPieces(c, s, evs, secrets, h) ==> HonestPieces(c, s, evs + more, secrets, h)
    ensures u == Store(t, i, Bls.Mul(secrets[t.rpcs[i].key], h))
  {
    var polling := t.(rpcs := SetPhase(t.rpcs, i, Polling));
    var piece := Bls.Mul(secrets[t.rpcs[i].key], h);
    var quiet := ToPoll(t.rpcs[i].phase, i);
    ReachesPoll(c, t, i);
    RunsCompose(c, s, evs, t, quiet);
    if HonestPieces(c, s, evs, secrets, h) { QuietIsHonest(c, s, evs, quiet, secrets, h); }
    OneEvent(c, polling, Piece(i, piece));
    RunsCompose(c, s, evs + quiet, polling, [Piece(i, piece)]);
    more, u := quiet + [Piece(i, piece)], Step(c, polling, Piece(i, piece));
    assert evs + more == evs + quiet + [Piece(i, piece)];
    assert (evs + more)[..|evs + more| - 1] == evs + quiet;
    assert u.rpcs == SetPhase(t.rpcs, i, Signed);
  }

  /** What a stored piece leaves open: the session has succeeded with the list as it is,
      or somebody is still to answer. */
  lemma StoreStaysOpen(c: Config, t: Session, i: nat, piece: Bls.Scalar)
    requires Good(c, t) && Open(t) && i < |t.rpcs| && t.rpcs[i].phase.Live()
    ensures var u := Store(t, i, piece);
            && u.signers == t.signers && |u.fetched| == |t.fetched| + 1 <= |t.signers|
            && (u.callbacks == [Success(Bls.Sum(u.fetched), t.signers)] || Open(u))
  {
    var u := Store(t, i, piece);
    StoreKeepsGood(c, t, i, piece);
    PiecesFit(c, u);
    if u.callbacks == [] {
      assert NoDrops(u) by {
        forall j | 0 <= j < |u.rpcs| ensures !u.rpcs[j].phase.Dropped? { assert j != i ==> u.rpcs[j] == t.rpcs[j]; }
      }
      if NoneLive(u.rpcs) {
        NothingAbandoned(c, u);
        AllSignedMeansEqualSizes(c, u);
      }
    }
  }

  /** There are never more pieces than signers. */
  lemma PiecesFit(c: Config, t: Session)
    requires Consistent(c, t)
    ensures |t.fetched| <= |t.signers|
  {
    NoDupSize(t.arrivals);
    NoDupSize(t.signers);
    forall n | n in KeysIn(t.rpcs, Signed) ensures n in CurrentKeys(t.rpcs) {
      var i :| 0 <= i < |t.rpcs| && t.rpcs[i].phase == Signed && t.rpcs[i].key == n;
      assert !t.rpcs[i].phase.Replaced?;
    }
    SubsetSize(Elements(t.arrivals), Elements(t.signers));
  }

  /** One more signer signs: the session has succeeded or is still open. */
  lemma OneMoreSigns(c: Config, s: Session, evs: seq<Event>, t: Session,
                     secrets: map<Name, Bls.Scalar>, h: Bls.Scalar) returns (all: seq<Event>, u: Session)
    requires Reaches(c, s, evs, t) && Open(t) && forall n :: n in t.signers ==> n in secrets
    ensures Reaches(c, s, all, u) && evs <= all
    ensures HonestPieces(c, s, evs, secrets, h) ==> HonestPieces(c, s, all, secrets, h)
    ensures u.signers == t.signers && |u.fetched| == |t.fetched| + 1 <= |t.signers|
    ensures u.callbacks == [Success(Bls.Sum(u.fetched), t.signers)] || Open(u)
  {
    RunKeepsGood(c, s, evs, t);
    var i :| 0 <= i < |t.rpcs| && t.rpcs[i].phase.Live();
    LiveIsListed(c, t, i);
    var more;
    more, u := SignNext(c, s, evs, t, i, secrets, h);
    all := evs + more;
    StoreStaysOpen(c, t, i, Bls.Mul(secrets[t.rpcs[i].key], h));
  }

  /** Every run to an open state can go on, with honest pieces if it had only such, to a
      success for the list as it is. */
  lemma {:induction false} OpenCanSucceed(c: Config, s: Session, evs: seq<Event>, t: Session,
                                          secrets: map<Name, Bls.Scalar>, h: Bls.Scalar)
    returns (all: seq<Event>, u: Session)
    requires Reaches(c, s, evs, t) && Open(t) && forall n :: n in t.signers ==> n in secrets
    ensures Reaches(c, s, all, u) && evs <= all
    ensures HonestPieces(c, s, evs, secrets, h) ==> HonestPieces(c, s, all, secrets, h)
    ensures u.callbacks == [Success(Bls.Sum(u.fetched), t.signers)] && u.signers == t.signers
    decreases |t.signers| - |t.fetched|
  {
    all, u := OneMoreSigns(c, s, evs, t, secrets, h);
    if Open(u) {
      var longer, v := OpenCanSucceed(c, s, all, u, secrets, h);
      assert all <= longer;
      all, u := longer, v;
    }
  }

  /** Neither succeeded nor open. */
  ghost predicate Lost(t: Session) { !Succeeded(t) && !Open(t) }

  lemma LostStays(c: Config, t: Session, e: Event)
    requires Good(c, t) && Enabled(t, e) && Lost(t)
    ensures Lost(Step(c, t, e))
  {
    var u := Step(c, t, e);
    StepKeepsGood(c, t, e);
    if !NoDrops(t) {
      var j :| 0 <= j < |t.rpcs| && t.rpcs[j].phase.Dropped?;
      StepKeepsFinal(c, t, e, j);
      assert u.rpcs[j].phase.Dropped?;
    } else if t.callbacks == [] {
      assert e.OtherMarks? || e.Reset?;
    } else {
      assert t.callbacks <= u.callbacks;
    }
  }

  lemma {:induction false} LostForGood(c: Config, s: Session, evs: seq<Event>, t: Session, more: seq<Event>, u: Session)
    requires Reaches(c, s, evs, t) && Lost(t) && After(c, t, more) == Some(u)
    ensures Reaches(c, s, evs + more, u) && Lost(u)
  {
    RunsCompose(c, s, evs, t, more);
    if more != [] {
      var prev := Before(c, t, more);
      LostForGood(c, s, evs, t, more[..|more| - 1], prev);
      RunKeepsGood(c, s, evs + more[..|more| - 1], prev);
      LostStays(c, prev, more[|more| - 1]);
    }
  }

  /** Exactly when a session can still report a success: it has done so, or nothing was
      reported, nothing was dropped, and some RPC is live. */
  lemma SuccessPossibleIff(c: Config, s: Session, evs: seq<Event>, t: Session)
    requires Reaches(c, s, evs, t)
    ensures (exists more, u :: After(c, t, more) == Some(u) && Succeeded(u)) <==> Succeeded(t) || Open(t)
  {
    if Succeeded(t) { assert After(c, t, []) == Some(t); }
    if Open(t) {
      var anything: map<Name, Bls.Scalar> := map n | n in Elements(t.signers) :: 0;
      var all, u := OpenCanSucceed(c, s, evs, t, anything, 0);
      var more := all[|evs|..];
      assert all == evs + more;
      RunsCompose(c, s, evs, t, more);
      assert After(c, t, more) == Some(u) && Succeeded(u);
    }
    if Lost(t) {
      forall more, u | After(c, t, more) == Some(u) ensures !Succeeded(u) { LostForGood(c, s, evs, t, more, u); }
    }
  }
}
