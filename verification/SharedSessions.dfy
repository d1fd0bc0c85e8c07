/** Several sessions on one container: they share nothing but the cache of
    unavailable signers. The events one of them sees are its own, a mark for every
    signer another one loses, and the resets; with these it makes a run of its own, to
    which the theorems about runs apply. */
module SharedSessions {
  import opened Names
  import opened Schemas
  import Replacement
  import Bls
  import Container
  import opened Sessions
  import opened SessionRuns

  /** A session, its settings, and the state it started from. */
  datatype Member = Member(settings: Config, start: Session, now: Session)

  datatype Initiator = Initiator(members: seq<Member>, unavailable: set<Name>)

  /** Another session starts, one session handles an event, or the cache is reset. */
  datatype Action = Start(settings: Config, session: Session) | Handle(k: nat, event: Event) | ClearCache

  ghost predicate Possible(w: Initiator, a: Action) {
    match a
    case Start(settings, session) => Initial(settings, session) && session.unavailable == w.unavailable
    case Handle(k, e) => k < |w.members| && !e.OtherMarks? && !e.Reset? && Enabled(w.members[k].now, e)
    case ClearCache => true
  }

  /** Everybody sees the same cache. */
  function Share(ms: seq<Member>, unavailable: set<Name>): (r: seq<Member>)
    ensures |r| == |ms|
  {
    seq(|ms|, j requires 0 <= j < |ms| => ms[j].(now := ms[j].now.(unavailable := unavailable)))
  }

  ghost function Act(w: Initiator, a: Action): Initiator
    requires Possible(w, a)
  {
    match a
    case Start(settings, session) => w.(members := w.members + [Member(settings, session, session)])
    case Handle(k, e) =>
      var m := w.members[k];
      var t := Step(m.settings, m.now, e);
      Initiator(Share(w.members[k := m.(now := t)], t.unavailable), t.unavailable)
    case ClearCache => Initiator(Share(w.members, {}), {})
  }

  ghost function AfterAll(acts: seq<Action>): Option<Initiator> {
    if acts == [] then Some(Initiator([], {})) else
      match AfterAll(acts[..|acts| - 1])
      case None => None
      case Some(w) => if Possible(w, acts[|acts| - 1]) then Some(Act(w, acts[|acts| - 1])) else None
  }

  // ----- What one session sees -----

  /** What an action is to the j-th session. */
  ghost function View(w: Initiator, a: Action, j: nat): seq<Event>
    requires Possible(w, a)
  {
    if j >= |w.members| then [] else
      match a
      case Start(_, _) => []
      case Handle(k, e) =>
        if k == j then [e]
        else if IsLoss(e) then [OtherMarks(w.members[k].now.rpcs[LostRpc(e)].key)]
        else []
      case ClearCache => [Reset]
  }

  ghost function Seen(acts: seq<Action>, j: nat): seq<Event>
    requires AfterAll(acts).Some?
  {
    if acts == [] then [] else
      Seen(acts[..|acts| - 1], j) + View(AfterAll(acts[..|acts| - 1]).value, acts[|acts| - 1], j)
  }

  /** The member is where its events lead it, and sees the common cache. */
  ghost predicate Follows(w: Initiator, j: nat, evs: seq<Event>)
    requires j < |w.members|
  {
    var m := w.members[j];
    Reaches(m.settings, m.start, evs, m.now) && m.now.unavailable == w.unavailable
  }

  /** What an event of one session does to the cache the others see. */
  lemma CacheAfter(c: Config, s: Session, e: Event)
    requires Enabled(s, e) && !e.OtherMarks? && !e.Reset?
    ensures Step(c, s, e).unavailable == s.unavailable + (if IsLoss(e) then {s.rpcs[LostRpc(e)].key} else {})
  {
  }

  lemma OneMoreEvent(c: Config, s: Session, evs: seq<Event>, t: Session, e: Event)
    requires Reaches(c, s, evs, t) && Enabled(t, e)
    ensures Reaches(c, s, evs + [e], Step(c, t, e))
  {
    assert (evs + [e])[..|evs + [e]| - 1] == evs;
  }

  lemma ActFollows(w: Initiator, a: Action, j: nat, evs: seq<Event>)
    requires Possible(w, a) && j < |Act(w, a).members|
    requires if j < |w.members| then Follows(w, j, evs) else evs == []
    requires forall k :: 0 <= k < |w.members| ==> w.members[k].now.unavailable == w.unavailable
    ensures Follows(Act(w, a), j, evs + View(w, a, j))
  {
    assert evs + [] == evs;
    if j < |w.members| {
      var m := w.members[j];
      match a {
        case Start(_, _) =>
        case Handle(k, e) =>
          CacheAfter(w.members[k].settings, w.members[k].now, e);
          if k == j {
            OneMoreEvent(m.settings, m.start, evs, m.now, e);
          } else if IsLoss(e) {
            OneMoreEvent(m.settings, m.start, evs, m.now, OtherMarks(w.members[k].now.rpcs[LostRpc(e)].key));
          }
        case ClearCache => OneMoreEvent(m.settings, m.start, evs, m.now, Reset);
      }
    }
  }

  lemma {:induction false} UnstartedSeesNothing(acts: seq<Action>, w: Initiator, j: nat)
    requires AfterAll(acts) == Some(w) && j >= |w.members|
    ensures Seen(acts, j) == []
  {
    if acts != [] { UnstartedSeesNothing(acts[..|acts| - 1], AfterAll(acts[..|acts| - 1]).value, j); }
  }

  /** In every interleaving of any number of sessions, the events each one sees are a
      run of its own that leads to its present state. */
  lemma {:induction false} EverySessionFollowsItsEvents(acts: seq<Action>, w: Initiator)
    requires AfterAll(acts) == Some(w)
    ensures forall j :: 0 <= j < |w.members| ==> Follows(w, j, Seen(acts, j))
  {
    if acts != [] {
      var init, a := acts[..|acts| - 1], acts[|acts| - 1];
      var prev := AfterAll(init).value;
      EverySessionFollowsItsEvents(init, prev);
      forall j | 0 <= j < |w.members| ensures Follows(w, j, Seen(acts, j)) {
        if j >= |prev.members| { UnstartedSeesNothing(init, prev, j); }
        assert forall k :: 0 <= k < |prev.members| ==>
            Follows(prev, k, Seen(init, k)) && prev.members[k].now.unavailable == prev.unavailable;
        ActFollows(prev, a, j, Seen(init, j));
      }
    }
  }

  lemma ResetIsClear(w: Initiator, a: Action, j: nat)
    requires Possible(w, a) && a != ClearCache
    ensures Reset !in View(w, a, j)
  {
  }

  /** Only clearing the cache is seen as a reset. */
  lemma {:induction false} ResetsAreClears(acts: seq<Action>, w: Initiator, j: nat)
    requires AfterAll(acts) == Some(w) && ClearCache !in acts
    ensures Reset !in Seen(acts, j)
  {
    if acts != [] {
      var init, a := acts[..|acts| - 1], acts[|acts| - 1];
      assert a in acts && forall x :: x in init ==> x in acts;
      ResetsAreClears(init, AfterAll(init).value, j);
      ResetIsClear(AfterAll(init).value, a, j);
    }
  }

  // ----- The cache -----

  ghost function LostKeys(rpcs: seq<Rpc>): set<Name> { KeysIn(rpcs, Abandoned) + KeysIn(rpcs, Replaced) }

  lemma MoveLost(rpcs: seq<Rpc>, i: nat, phase: Phase)
    requires i < |rpcs| && rpcs[i].phase.Live()
    ensures LostKeys(SetPhase(rpcs, i, phase))
         == LostKeys(rpcs) + (if phase.Abandoned? || phase.Replaced? then {rpcs[i].key} else {})
  {
    InAfterMove(rpcs, i, phase, Abandoned);
    InAfterMove(rpcs, i, phase, Replaced);
  }

  lemma LossLost(c: Config, s: Session, i: nat)
    requires i < |s.rpcs| && s.rpcs[i].phase.Live()
    ensures LostKeys(Lose(c, s, i).rpcs) == LostKeys(s.rpcs) + {s.rpcs[i].key}
  {
    var lost := s.rpcs[i].key;
    var (list, added) := Replacement.Replace(c.schema, c.trusted - (s.unavailable + {lost}), s.signers, lost);
    if list == [] {
      MoveLost(s.rpcs, i, Abandoned);
    } else {
      MoveLost(s.rpcs, i, Replaced);
      InAfterLaunch(SetPhase(s.rpcs, i, Replaced), added, Abandoned);
      InAfterLaunch(SetPhase(s.rpcs, i, Replaced), added, Replaced);
    }
  }

  lemma StepLost(c: Config, s: Session, e: Event)
    requires Enabled(s, e)
    ensures LostKeys(Step(c, s, e).rpcs)
         == LostKeys(s.rpcs) + (if IsLoss(e) then {s.rpcs[LostRpc(e)].key} else {})
  {
    match e {
      case Ack(i) => MoveLost(s.rpcs, i, Scheduled);
      case BadAck(i) => MoveLost(s.rpcs, i, Dropped);
      case Poll(i) => MoveLost(s.rpcs, i, Polling);
      case Processing(i) => MoveLost(s.rpcs, i, Scheduled);
      case Piece(i, _) => MoveLost(s.rpcs, i, Signed);
      case BadResult(i) => MoveLost(s.rpcs, i, Dropped);
      case RequestLost(i) => LossLost(c, s, i);
      case ResultLost(i) => LossLost(c, s, i);
      case OtherMarks(_) =>
      case Reset =>
    }
  }

  ghost predicate LostBySome(w: Initiator, n: Name) {
    exists j :: 0 <= j < |w.members| && n in LostKeys(w.members[j].now.rpcs)
  }

  lemma ActLost(w: Initiator, a: Action, n: Name)
    requires Possible(w, a) && a != ClearCache
    ensures LostBySome(Act(w, a), n)
       <==> LostBySome(w, n) || (a.Handle? && IsLoss(a.event) && n == w.members[a.k].now.rpcs[LostRpc(a.event)].key)
  {
    var u := Act(w, a);
    if a.Handle? {
      var m := w.members[a.k];
      StepLost(m.settings, m.now, a.event);
      assert u.members[a.k].now.rpcs == Step(m.settings, m.now, a.event).rpcs;
      assert forall j :: 0 <= j < |w.members| && j != a.k ==> u.members[j].now.rpcs == w.members[j].now.rpcs;
    } else {
      assert forall j :: 0 <= j < |w.members| ==> u.members[j] == w.members[j];
      InAfterLaunch([], a.session.signers, Abandoned);
      InAfterLaunch([], a.session.signers, Replaced);
      assert [] + Launch(a.session.signers) == a.session.rpcs;
    }
    if LostBySome(w, n) {
      var j :| 0 <= j < |w.members| && n in LostKeys(w.members[j].now.rpcs);
      assert n in LostKeys(u.members[j].now.rpcs);
    }
  }

  /** The cache holds exactly the signers that some session has lost, until it is cleared. */
  lemma {:induction false} CacheIsLosses(acts: seq<Action>, w: Initiator, n: Name)
    requires AfterAll(acts) == Some(w) && ClearCache !in acts
    ensures n in w.unavailable <==> LostBySome(w, n)
  {
    if acts != [] {
      var init, a := acts[..|acts| - 1], acts[|acts| - 1];
      assert a in acts && forall x :: x in init ==> x in acts;
      var prev := AfterAll(init).value;
      CacheIsLosses(init, prev, n);
      EverySessionFollowsItsEvents(init, prev);
      assert forall k :: 0 <= k < |prev.members| ==>
          Follows(prev, k, Seen(init, k)) && prev.members[k].now.unavailable == prev.unavailable;
      ActLost(prev, a, n);
      if a.Handle? { CacheAfter(prev.members[a.k].settings, prev.members[a.k].now, a.event); }
    }
  }

  // ----- Guarantees in an interleaving -----

  /** Nobody is asked twice by one session, however many share the container. */
  lemma SharedContactIsBounded(acts: seq<Action>, w: Initiator, j: nat)
    requires AfterAll(acts) == Some(w) && j < |w.members| && ClearCache !in acts
    ensures var m := w.members[j];
            && (forall i, k :: 0 <= i < k < |m.now.rpcs| ==> m.now.rpcs[i].key != m.now.rpcs[k].key)
            && |m.now.rpcs| <= |m.settings.trusted| && Losses(Seen(acts, j)) <= |m.settings.trusted|
  {
    EverySessionFollowsItsEvents(acts, w);
    ResetsAreClears(acts, w, j);
    var m := w.members[j];
    BoundedContact(m.settings, m.start, Seen(acts, j), m.now);
  }

  /** A failure any session reports means that the schema cannot be passed with the
      names that none of the sessions has lost. */
  lemma SharedFailureMeansInfeasible(acts: seq<Action>, w: Initiator, j: nat)
    requires AfterAll(acts) == Some(w) && j < |w.members| && ClearCache !in acts
    requires [] !in w.members[j].settings.trusted && !Passes(w.members[j].settings.schema, [])
    ensures var m := w.members[j];
            Failure in m.now.callbacks ==> !Feasible(m.settings.schema, m.settings.trusted - w.unavailable)
  {
    EverySessionFollowsItsEvents(acts, w);
    ResetsAreClears(acts, w, j);
    var m := w.members[j];
    FailureMeansInfeasible(m.settings, m.start, Seen(acts, j), m.now);
  }

  /** A success any session reports verifies under the published keys; and unless the
      cache is cleared or a loss leaves a passing list two short, its list passes the
      schema exactly when the published names and those no session has lost can. */
  lemma SharedSuccess(acts: seq<Action>, w: Initiator, j: nat, secrets: map<Name, Bls.Scalar>, h: Bls.Scalar,
                      signature: Bls.Scalar, published: seq<Name>)
    requires AfterAll(acts) == Some(w) && j < |w.members|
    requires Success(signature, published) in w.members[j].now.callbacks
    requires HonestPieces(w.members[j].settings, w.members[j].start, Seen(acts, j), secrets, h)
    ensures NoDup(published) && published != [] && Elements(published) <= w.members[j].settings.trusted
    ensures forall n :: n in published ==> n in secrets
    ensures Bls.Verifies(Bls.Sum(Container.KeysOf(secrets, published)), h, signature)
    ensures var c := w.members[j].settings;
            ClearCache !in acts && NeverTwoShort(c, w.members[j].start, Seen(acts, j)) && [] !in c.trusted ==>
              (Passes(c.schema, published) <==> Feasible(c.schema, Elements(published) + (c.trusted - w.unavailable)))
  {
    EverySessionFollowsItsEvents(acts, w);
    var m, evs := w.members[j], Seen(acts, j);
    SuccessVerifies(m.settings, m.start, evs, m.now, secrets, h, signature, published);
    if ClearCache !in acts && NeverTwoShort(m.settings, m.start, evs) && [] !in m.settings.trusted {
      ResetsAreClears(acts, w, j);
      PublishedPassesIff(m.settings, m.start, evs, m.now, signature, published);
    }
  }
}
