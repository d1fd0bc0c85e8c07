/** A multi-party signing session at the initiator: its state, the callbacks that
    change it, and what holds in every state a run can reach. */
module Sessions {
  import opened Names
  import opened Schemas
  import Replacement
  import Bls
  import Container

  /** Where one RPC stands. The first three phases are live; the other four final:
      its piece was stored, a reply was discarded without any report, its signer was
      lost and not replaced, or its signer was lost and taken off the list. */
  datatype Phase = Requested | Scheduled | Polling | Signed | Dropped | Abandoned | Replaced {
    predicate Live() { Requested? || Scheduled? || Polling? }
  }

  datatype Rpc = Rpc(key: Name, phase: Phase)

  datatype Callback = Success(signature: Bls.Scalar, published: seq<Name>) | Failure

  /** The shared session state, every RPC started so far, the callbacks made, and the
      container's cache. `arrivals` is a history variable: whose piece came when. */
  datatype Session = Session(
    signers: seq<Name>,
    fetched: seq<Bls.Scalar>,
    arrivals: seq<Name>,
    rpcs: seq<Rpc>,
    callbacks: seq<Callback>,
    unavailable: set<Name>)

  datatype Config = Config(trusted: set<Name>, schema: Schema)

  /** What the event loop can deliver; the number is the RPC it belongs to. The last
      two come from outside the session: another session on the same container marks
      a key, or the application resets the cache. */
  datatype Event =
    | Ack(i: nat)
    | BadAck(i: nat)
    | RequestLost(i: nat)
    | Poll(i: nat)
    | Processing(i: nat)
    | Piece(i: nat, signature: Bls.Scalar)
    | BadResult(i: nat)
    | ResultLost(i: nat)
    | OtherMarks(key: Name)
    | Reset

  predicate InPhase(s: Session, i: nat, phase: Phase) { i < |s.rpcs| && s.rpcs[i].phase == phase }

  predicate Enabled(s: Session, e: Event) {
    match e
    case Ack(i) => InPhase(s, i, Requested)
    case BadAck(i) => InPhase(s, i, Requested)
    case RequestLost(i) => InPhase(s, i, Requested)
    case Poll(i) => InPhase(s, i, Scheduled)
    case Processing(i) => InPhase(s, i, Polling)
    case Piece(i, _) => InPhase(s, i, Polling)
    case BadResult(i) => InPhase(s, i, Polling)
    case ResultLost(i) => InPhase(s, i, Polling)
    case OtherMarks(_) => true
    case Reset => true
  }

  function SetPhase(rpcs: seq<Rpc>, i: nat, phase: Phase): (r: seq<Rpc>)
    requires i < |rpcs|
    ensures |r| == |rpcs|
  {
    rpcs[i := rpcs[i].(phase := phase)]
  }

  function Launch(keys: seq<Name>): (r: seq<Rpc>)
    ensures |r| == |keys|
  {
    seq(|keys|, i requires 0 <= i < |keys| => Rpc(keys[i], Requested))
  }

  /** A signer is lost: an error code, a nack or a timeout. */
  ghost function Lose(c: Config, s: Session, i: nat): Session
    requires i < |s.rpcs|
  {
    var lost := s.rpcs[i].key;
    var marked := s.unavailable + {lost};
    var (list, added) := Replacement.Replace(c.schema, c.trusted - marked, s.signers, lost);
    if list == [] then
      s.(rpcs := SetPhase(s.rpcs, i, Abandoned), callbacks := s.callbacks + [Failure], unavailable := marked)
    else
      s.(signers := list, rpcs := SetPhase(s.rpcs, i, Replaced) + Launch(added), unavailable := marked)
  }

  /** A piece is stored; when there are as many pieces as signers the session ends. */
  function Store(s: Session, i: nat, piece: Bls.Scalar): Session
    requires i < |s.rpcs|
  {
    var fetched := s.fetched + [piece];
    s.(fetched := fetched,
       arrivals := s.arrivals + [s.rpcs[i].key],
       rpcs := SetPhase(s.rpcs, i, Signed),
       callbacks := s.callbacks + if |fetched| == |s.signers| then [Success(Bls.Sum(fetched), s.signers)] else [])
  }

  ghost function Step(c: Config, s: Session, e: Event): Session
    requires Enabled(s, e)
  {
    match e
    case Ack(i) => s.(rpcs := SetPhase(s.rpcs, i, Scheduled))
    case BadAck(i) => s.(rpcs := SetPhase(s.rpcs, i, Dropped))
    case RequestLost(i) => Lose(c, s, i)
    case Poll(i) => s.(rpcs := SetPhase(s.rpcs, i, Polling))
    case Processing(i) => s.(rpcs := SetPhase(s.rpcs, i, Scheduled))
    case Piece(i, piece) => Store(s, i, piece)
    case BadResult(i) => s.(rpcs := SetPhase(s.rpcs, i, Dropped))
    case ResultLost(i) => Lose(c, s, i)
    case OtherMarks(key) => s.(unavailable := s.unavailable + {key})
    case Reset => s.(unavailable := {})
  }

  /** A session starts with any passing list of available keys; an empty list is
      reported as a failure, and no RPC is started. */
  ghost predicate Initial(c: Config, s: Session) {
    && NoDup(s.signers) && Elements(s.signers) <= c.trusted - s.unavailable && Passes(c.schema, s.signers)
    && s.fetched == [] && s.arrivals == [] && s.rpcs == Launch(s.signers)
    && s.callbacks == if s.signers == [] then [Failure] else []
  }

  // ----- The session object -----

  class MultiSignSession {
    const container: Container.MultipartySchemaContainer
    const schema: Schema
    var signers: seq<Name>
    var fetchedSignatures: seq<Bls.Scalar>
    var rpcs: seq<Rpc>
    var callbacks: seq<Callback>
    ghost var arrivals: seq<Name>

    ghost function State(): Session
      reads this, container
    {
      Session(signers, fetchedSignatures, arrivals, rpcs, callbacks, container.unavailable)
    }

    ghost function Settings(): Config
      reads this, container
    {
      Config(container.trustedIds.Keys, schema)
    }

    constructor Raw(container: Container.MultipartySchemaContainer, schema: Schema, signers: seq<Name>)
      ensures this.container == container && this.schema == schema
      ensures State() == Session(signers, [], [], [], [], container.unavailable)
    {
      this.container, this.schema, this.signers := container, schema, signers;
      fetchedSignatures, rpcs, callbacks, arrivals := [], [], [], [];
    }

    /** Starts the RPCs of some keys. */
    method PerformRPCs(keys: seq<Name>)
      modifies this`rpcs
      ensures rpcs == old(rpcs) + Launch(keys)
    {
      for k := 0 to |keys|
        invariant rpcs == old(rpcs) + Launch(keys[..k])
      {
        assert Launch(keys[..k + 1]) == Launch(keys[..k]) + [Rpc(keys[k], Requested)];
        rpcs := rpcs + [Rpc(keys[k], Requested)];
      }
      assert keys[..|keys|] == keys;
    }

    method OnUnavailableSigner(i: nat)
      requires InPhase(State(), i, Requested) || InPhase(State(), i, Polling)
      modifies this, container`unavailable
      ensures State() == Lose(old(Settings()), old(State()), i) && Settings() == old(Settings())
    {
      var lost := rpcs[i].key;
      var newSigners, diffSigners := container.ReplaceSigner(signers, lost, schema);
      assert container.Available() == old(container.trustedIds.Keys) - (old(container.unavailable) + {lost});
      if newSigners == [] {
        rpcs := SetPhase(rpcs, i, Abandoned);
        callbacks := callbacks + [Failure];
      } else {
        rpcs := SetPhase(rpcs, i, Replaced);
        signers := newSigners;
        PerformRPCs(diffSigners);
      }
    }

    /** A 200 result: store the piece, and aggregate and report when all are there. */
    method OnPiece(i: nat, piece: Bls.Scalar)
      requires InPhase(State(), i, Polling)
      modifies this
      ensures State() == Store(old(State()), i, piece)
    {
      fetchedSignatures := fetchedSignatures + [piece];
      arrivals := arrivals + [rpcs[i].key];
      rpcs := SetPhase(rpcs, i, Signed);
      if |fetchedSignatures| == |signers| {
        var aggSignature := Bls.AggregateSignature(fetchedSignatures);
        callbacks := callbacks + [Success(aggSignature, signers)];
      }
    }

    /** Runs the callback of an event; the remaining ones only move one RPC along. */
    method Dispatch(e: Event)
      requires Enabled(State(), e) && !e.OtherMarks? && !e.Reset?
      modifies this, container`unavailable
      ensures State() == Step(old(Settings()), old(State()), e) && Settings() == old(Settings())
    {
      match e {
        case Ack(i) => rpcs := SetPhase(rpcs, i, Scheduled);
        case BadAck(i) => rpcs := SetPhase(rpcs, i, Dropped);
        case RequestLost(i) => OnUnavailableSigner(i);
        case Poll(i) => rpcs := SetPhase(rpcs, i, Polling);
        case Processing(i) => rpcs := SetPhase(rpcs, i, Scheduled);
        case Piece(i, piece) => OnPiece(i, piece);
        case BadResult(i) => rpcs := SetPhase(rpcs, i, Dropped);
        case ResultLost(i) => OnUnavailableSigner(i);
      }
    }
  }

  /** Starting a session; None where choosing the signers throws, which happens
      exactly when the schema is not feasible. */
  method MultiPartySign(container: Container.MultipartySchemaContainer, schema: Schema)
    returns (r: Option<MultiSignSession>)
    ensures r.Some? <==> Feasible(schema, container.Available())
    ensures r.Some? ==> fresh(r.value) && r.value.container == container && r.value.schema == schema
    ensures r.Some? ==> Initial(r.value.Settings(), r.value.State())
    ensures r.Some? ==> Ascending(r.value.signers)
                        && forall n :: n in r.value.signers <==> Container.Chosen(schema, container.Available(), n)
  {
    var list := container.GetAvailableSigners(schema);
    if list.None? { return None; }
    var session := new MultiSignSession.Raw(container, schema, list.value);
    if |session.signers| == 0 { session.callbacks := session.callbacks + [Failure]; }
    session.PerformRPCs(session.signers);
    assert [] + Launch(list.value) == Launch(list.value);
    return Some(session);
  }

  // ----- Runs -----

  /** The state after a run of events; None if one of them was not enabled. */
  ghost function After(c: Config, s: Session, evs: seq<Event>): Option<Session> {
    if evs == [] then Some(s) else
      match After(c, s, evs[..|evs| - 1])
      case None => None
      case Some(t) => if Enabled(t, evs[|evs| - 1]) then Some(Step(c, t, evs[|evs| - 1])) else None
  }

  ghost predicate Reaches(c: Config, s: Session, evs: seq<Event>, t: Session) {
    Initial(c, s) && After(c, s, evs) == Some(t)
  }

  /** The state before the last event of a run. */
  ghost function Before(c: Config, s: Session, evs: seq<Event>): (t: Session)
    requires evs != [] && After(c, s, evs).Some?
    ensures After(c, s, evs[..|evs| - 1]) == Some(t) && Enabled(t, evs[|evs| - 1])
    ensures After(c, s, evs) == Some(Step(c, t, evs[|evs| - 1]))
  {
    After(c, s, evs[..|evs| - 1]).value
  }

  // ----- The session invariant -----

  /** Keys of the RPCs that still count: all but those of replaced signers. */
  ghost function CurrentKeys(rpcs: seq<Rpc>): set<Name> {
    set i | 0 <= i < |rpcs| && !rpcs[i].phase.Replaced? :: rpcs[i].key
  }

  ghost function KeysIn(rpcs: seq<Rpc>, phase: Phase): set<Name> {
    set i | 0 <= i < |rpcs| && rpcs[i].phase == phase :: rpcs[i].key
  }

  /** No two RPCs that count are for the same key. */
  ghost predicate DistinctCurrent(rpcs: seq<Rpc>) {
    forall i, j :: 0 <= i < j < |rpcs| && !rpcs[i].phase.Replaced? && !rpcs[j].phase.Replaced? ==>
      rpcs[i].key != rpcs[j].key
  }

  /** The list is duplicate-free and is, one to one, the signers that have signed,
      have a live RPC, were dropped or were abandoned; pieces stand for exactly the
      ones that have signed. */
  ghost predicate Consistent(c: Config, s: Session) {
    && NoDup(s.signers) && Elements(s.signers) <= c.trusted
    && CurrentKeys(s.rpcs) == Elements(s.signers) && DistinctCurrent(s.rpcs)
    && |s.fetched| == |s.arrivals| && NoDup(s.arrivals)
    && Elements(s.arrivals) == KeysIn(s.rpcs, Signed)
  }

  ghost predicate AllSigned(rpcs: seq<Rpc>) {
    forall i :: 0 <= i < |rpcs| ==> rpcs[i].phase.Signed? || rpcs[i].phase.Replaced?
  }

  ghost predicate OnlyFailures(callbacks: seq<Callback>) { forall k :: 0 <= k < |callbacks| ==> callbacks[k].Failure? }

  /** Either nothing but failures was reported, and something was exactly when a
      signer was abandoned (or there never was one), or exactly one success was, for
      the list as it is, when every RPC had ended. */
  ghost predicate SafelyReported(s: Session) {
    || (OnlyFailures(s.callbacks) &&
        (s.callbacks != [] <==> s.signers == [] || KeysIn(s.rpcs, Abandoned) != {}))
    || (s.callbacks == [Success(Bls.Sum(s.fetched), s.signers)]
        && AllSigned(s.rpcs) && s.fetched != [] && |s.fetched| == |s.signers|)
  }

  ghost predicate Good(c: Config, s: Session) { Consistent(c, s) && SafelyReported(s) }

  lemma InAfterMove(rpcs: seq<Rpc>, i: nat, phase: Phase, q: Phase)
    requires i < |rpcs| && rpcs[i].phase != q
    ensures KeysIn(SetPhase(rpcs, i, phase), q) == KeysIn(rpcs, q) + (if phase == q then {rpcs[i].key} else {})
  {
    var moved := SetPhase(rpcs, i, phase);
    forall n ensures n in KeysIn(moved, q) <==> n in KeysIn(rpcs, q) || (phase == q && n == rpcs[i].key) {
      if n in KeysIn(rpcs, q) {
        var j :| 0 <= j < |rpcs| && rpcs[j].phase == q && rpcs[j].key == n;
        assert moved[j] == rpcs[j];
      }
      if phase == q && n == rpcs[i].key { assert moved[i].key == n; }
    }
  }

  lemma InAfterLaunch(rpcs: seq<Rpc>, keys: seq<Name>, q: Phase)
    requires q != Requested
    ensures KeysIn(rpcs + Launch(keys), q) == KeysIn(rpcs, q)
  {
    var all := rpcs + Launch(keys);
    forall n | n in KeysIn(rpcs, q) ensures n in KeysIn(all, q) {
      var i :| 0 <= i < |rpcs| && rpcs[i].phase == q && rpcs[i].key == n;
      assert all[i].key == n;
    }
  }

  lemma CurrentAfterMove(rpcs: seq<Rpc>, i: nat, phase: Phase)
    requires i < |rpcs| && rpcs[i].phase.Live() && DistinctCurrent(rpcs)
    ensures DistinctCurrent(SetPhase(rpcs, i, phase))
    ensures CurrentKeys(SetPhase(rpcs, i, phase)) == CurrentKeys(rpcs) - (if phase.Replaced? then {rpcs[i].key} else {})
    ensures rpcs[i].key in CurrentKeys(rpcs) && rpcs[i].key !in KeysIn(rpcs, Signed)
  {
    var moved := SetPhase(rpcs, i, phase);
    forall n ensures n in CurrentKeys(moved) <==> n in CurrentKeys(rpcs) && !(phase.Replaced? && n == rpcs[i].key) {
      if n in CurrentKeys(rpcs) {
        var j :| 0 <= j < |rpcs| && !rpcs[j].phase.Replaced? && rpcs[j].key == n;
        assert moved[j].key == n;
        assert j != i ==> moved[j] == rpcs[j];
      }
    }
  }

  lemma AfterLaunch(rpcs: seq<Rpc>, keys: seq<Name>)
    requires DistinctCurrent(rpcs) && NoDup(keys) && CurrentKeys(rpcs) !! Elements(keys)
    ensures var all := rpcs + Launch(keys);
            && DistinctCurrent(all) && CurrentKeys(all) == CurrentKeys(rpcs) + Elements(keys)
    ensures forall q: Phase :: q != Requested ==> KeysIn(rpcs + Launch(keys), q) == KeysIn(rpcs, q)
  {
    var all := rpcs + Launch(keys);
    assert forall i :: 0 <= i < |rpcs| ==> all[i] == rpcs[i];
    assert forall k :: 0 <= k < |keys| ==> all[|rpcs| + k] == Rpc(keys[k], Requested);
    forall i, j | 0 <= i < j < |all| && !all[i].phase.Replaced? && !all[j].phase.Replaced?
      ensures all[i].key != all[j].key
    {
      if i < |rpcs| <= j {
        assert all[i].key in CurrentKeys(rpcs);
        assert keys[j - |rpcs|] in Elements(keys);
      }
    }
    forall n ensures n in CurrentKeys(all) <==> n in CurrentKeys(rpcs) || n in Elements(keys) {
      if n in CurrentKeys(rpcs) {
        var i :| 0 <= i < |rpcs| && !rpcs[i].phase.Replaced? && rpcs[i].key == n;
        assert all[i].key == n;
      }
      if n in Elements(keys) {
        var k :| 0 <= k < |keys| && keys[k] == n;
        assert all[|rpcs| + k].key == n;
      }
    }
    forall q: Phase | q != Requested ensures KeysIn(all, q) == KeysIn(rpcs, q) { InAfterLaunch(rpcs, keys, q); }
  }

  lemma InitialIsGood(c: Config, s: Session)
    requires Initial(c, s)
    ensures Good(c, s)
  {
    AfterLaunch([], s.signers);
    assert [] + Launch(s.signers) == s.rpcs;
  }

  lemma MoveKeepsGood(c: Config, s: Session, i: nat, phase: Phase)
    requires Good(c, s) && i < |s.rpcs| && s.rpcs[i].phase.Live() && (phase.Live() || phase.Dropped?)
    ensures Good(c, s.(rpcs := SetPhase(s.rpcs, i, phase)))
  {
    CurrentAfterMove(s.rpcs, i, phase);
    InAfterMove(s.rpcs, i, phase, Signed);
    InAfterMove(s.rpcs, i, phase, Abandoned);
  }

  lemma LoseKeepsGood(c: Config, s: Session, i: nat)
    requires Good(c, s) && i < |s.rpcs| && s.rpcs[i].phase.Live()
    ensures Good(c, Lose(c, s, i))
  {
    var lost := s.rpcs[i].key;
    assert OnlyFailures(s.callbacks) && lost in Elements(s.signers) by { assert lost in CurrentKeys(s.rpcs); }
    var available := c.trusted - (s.unavailable + {lost});
    var list := Replacement.Replace(c.schema, available, s.signers, lost).0;
    if list == [] { AbandonKeepsGood(c, s, i); } else { ReplaceKeepsGood(c, s, i, available); }
  }

  lemma AbandonKeepsGood(c: Config, s: Session, i: nat)
    requires Good(c, s) && i < |s.rpcs| && s.rpcs[i].phase.Live() && OnlyFailures(s.callbacks)
    ensures Good(c, s.(rpcs := SetPhase(s.rpcs, i, Abandoned), callbacks := s.callbacks + [Failure]))
  {
    CurrentAfterMove(s.rpcs, i, Abandoned);
    InAfterMove(s.rpcs, i, Abandoned, Signed);
    InAfterMove(s.rpcs, i, Abandoned, Abandoned);
  }

  lemma ReplaceKeepsGood(c: Config, s: Session, i: nat, available: set<Name>)
    requires Good(c, s) && i < |s.rpcs| && s.rpcs[i].phase.Live() && OnlyFailures(s.callbacks)
    requires s.rpcs[i].key !in available && available <= c.trusted && s.signers != []
    requires Replacement.Replace(c.schema, available, s.signers, s.rpcs[i].key).0 != []
    ensures var (list, added) := Replacement.Replace(c.schema, available, s.signers, s.rpcs[i].key);
            Good(c, s.(signers := list, rpcs := SetPhase(s.rpcs, i, Replaced) + Launch(added)))
  {
    var (list, added) := Replacement.Replace(c.schema, available, s.signers, s.rpcs[i].key);
    Replacement.ReplaceConserves(c.schema, available, s.signers, s.rpcs[i].key);
    SwapKeys(s.rpcs, i, added, Elements(s.signers));
  }

  /** Taking one RPC off the list and launching new ones. */
  lemma SwapKeys(rpcs: seq<Rpc>, i: nat, added: seq<Name>, listed: set<Name>)
    requires i < |rpcs| && rpcs[i].phase.Live() && DistinctCurrent(rpcs) && CurrentKeys(rpcs) == listed
    requires NoDup(added) && Elements(added) !! listed
    ensures var all := SetPhase(rpcs, i, Replaced) + Launch(added);
            && DistinctCurrent(all) && CurrentKeys(all) == listed - {rpcs[i].key} + Elements(added)
            && KeysIn(all, Signed) == KeysIn(rpcs, Signed) && KeysIn(all, Abandoned) == KeysIn(rpcs, Abandoned)
  {
    CurrentAfterMove(rpcs, i, Replaced);
    InAfterMove(rpcs, i, Replaced, Signed);
    InAfterMove(rpcs, i, Replaced, Abandoned);
    AfterLaunch(SetPhase(rpcs, i, Replaced), added);
  }

  /** As many pieces as signers means: the pieces are exactly those of the list. */
  lemma EqualSizesMeanAllSigned(c: Config, s: Session)
    requires Consistent(c, s) && |s.fetched| == |s.signers|
    ensures Elements(s.arrivals) == Elements(s.signers) && AllSigned(s.rpcs)
  {
    NoDupSize(s.arrivals);
    NoDupSize(s.signers);
    forall n | n in KeysIn(s.rpcs, Signed) ensures n in CurrentKeys(s.rpcs) {
      var i :| 0 <= i < |s.rpcs| && s.rpcs[i].phase == Signed && s.rpcs[i].key == n;
      assert !s.rpcs[i].phase.Replaced?;
    }
    SubsetSize(Elements(s.arrivals), Elements(s.signers));
    forall i | 0 <= i < |s.rpcs| && !s.rpcs[i].phase.Replaced? ensures s.rpcs[i].phase.Signed? {
      assert s.rpcs[i].key in KeysIn(s.rpcs, Signed);
      var j :| 0 <= j < |s.rpcs| && s.rpcs[j].phase == Signed && s.rpcs[j].key == s.rpcs[i].key;
      assert i == j;
    }
  }

  lemma StoreKeepsGood(c: Config, s: Session, i: nat, piece: Bls.Scalar)
    requires Good(c, s) && i < |s.rpcs| && s.rpcs[i].phase.Live()
    ensures Good(c, Store(s, i, piece))
  {
    var t := Store(s, i, piece);
    CurrentAfterMove(s.rpcs, i, Signed);
    InAfterMove(s.rpcs, i, Signed, Signed);
    InAfterMove(s.rpcs, i, Signed, Abandoned);
    assert Elements(t.arrivals) == Elements(s.arrivals) + {s.rpcs[i].key};
    assert s.rpcs[i].key !in Elements(s.arrivals);
    if |t.fetched| == |t.signers| {
      EqualSizesMeanAllSigned(c, t);
      assert KeysIn(t.rpcs, Abandoned) == {};
      assert s.callbacks == [];
    }
  }

  lemma StepKeepsGood(c: Config, s: Session, e: Event)
    requires Good(c, s) && Enabled(s, e)
    ensures Good(c, Step(c, s, e))
  {
    match e {
      case Ack(i) => MoveKeepsGood(c, s, i, Scheduled);
      case BadAck(i) => MoveKeepsGood(c, s, i, Dropped);
      case RequestLost(i) => LoseKeepsGood(c, s, i);
      case Poll(i) => MoveKeepsGood(c, s, i, Polling);
      case Processing(i) => MoveKeepsGood(c, s, i, Scheduled);
      case Piece(i, piece) => StoreKeepsGood(c, s, i, piece);
      case BadResult(i) => MoveKeepsGood(c, s, i, Dropped);
      case ResultLost(i) => LoseKeepsGood(c, s, i);
      case OtherMarks(key) =>
      case Reset =>
    }
  }

  /** The invariant holds in every state of every run. */
  lemma {:induction false} RunKeepsGood(c: Config, s: Session, evs: seq<Event>, t: Session)
    requires Reaches(c, s, evs, t)
    ensures Good(c, t)
  {
    if evs == [] {
      InitialIsGood(c, s);
    } else {
      var prev := Before(c, s, evs);
      RunKeepsGood(c, s, evs[..|evs| - 1], prev);
      StepKeepsGood(c, prev, evs[|evs| - 1]);
    }
  }
}
