/** One sign request at a signer: the parameter fetch runs beside any number of
    result polls, and both touch the same record. */
module SignRequests {
  import opened Names
  import Bls

  datatype Code = Processing | OK | Unauthorized | FailedDependency

  /** A 102 reply with its version, a 200 reply with the signature value, or an error code. */
  datatype Reply = Still(version: nat) | Done(signature: Option<Bls.Scalar>) | Failed(code: Code)

  /** A signer: its secret, the message hash, and the application's verdict on a packet. */
  datatype Signer = Signer(secret: Bls.Scalar, hash: Bytes -> Bls.Scalar, accepts: Bytes -> bool)

  /** A fetched parameter packet: whether its HMAC verifies, and the decrypted
      unsigned packet unless decoding it throws. */
  datatype Parameter = Parameter(hmacValid: bool, decoded: Option<Bytes>)

  /** The record of a request, the replies sent so far, and whether the result
      prefix and the fetch callbacks are still armed. */
  datatype Request = Request(
    code: Code,
    version: nat,
    signature: Option<Bls.Scalar>,
    answering: bool,
    fetching: bool,
    replies: seq<Reply>)

  const INITIAL: Request := Request(Processing, 0, None, true, true, [])

  /** A result Interest (well named or not), or the end of the parameter fetch. */
  datatype Event = Poll(wellNamed: bool) | Fetched(packet: Parameter) | FetchNack | FetchTimeout

  /** Exactly one of the three fetch callbacks runs. */
  predicate Enabled(r: Request, e: Event) { e.Poll? || r.fetching }

  function Reported(r: Request): Reply {
    match r.code
    case Processing => Still(r.version + 1)
    case OK => Done(r.signature)
    case _ => Failed(r.code)
  }

  function Step(s: Signer, r: Request, e: Event): Request {
    match e
    case Poll(wellNamed) =>
      if !r.answering || !wellNamed then r
      else if r.code == Processing then r.(version := r.version + 1, replies := r.replies + [Reported(r)])
      else r.(answering := false, replies := r.replies + [Reported(r)])
    case Fetched(packet) =>
      if !packet.hmacValid then r.(fetching := false)
      else (match packet.decoded
            case None => r.(fetching := false, code := FailedDependency)
            case Some(d) =>
              if s.accepts(d) then r.(fetching := false, code := OK, signature := Some(Bls.Mul(s.secret, s.hash(d))))
              else r.(fetching := false, code := Unauthorized))
    case FetchNack => r.(fetching := false, code := FailedDependency)
    case FetchTimeout => r.(fetching := false, code := FailedDependency)
  }

  /** The fields the two callbacks share. */
  class SignRequestState {
    var code: Code
    var signatureValue: Option<Bls.Scalar>
    var version: nat
    var answering: bool
    ghost var fetching: bool
    ghost var replies: seq<Reply>

    ghost function State(): Request
      reads this
    {
      Request(code, version, signatureValue, answering, fetching, replies)
    }

    constructor ()
      ensures State() == INITIAL
    {
      code, version, signatureValue, answering, fetching, replies := Processing, 0, None, true, true, [];
    }

    /** Builds the reply and cancels the result prefix after a final one. */
    method GenerateResultData(ghost s: Signer) returns (reply: Reply)
      requires answering
      modifies this
      ensures State() == Step(s, old(State()), Poll(true))
      ensures reply == Reported(old(State())) && replies == old(replies) + [reply]
    {
      if code == Processing {
        version := version + 1;
        reply := Still(version);
      } else if code == OK {
        reply := Done(signatureValue);
        answering := false;
      } else {
        reply := Failed(code);
        answering := false;
      }
      replies := replies + [reply];
    }

    /** A result Interest; a badly named one, or one after cancellation, is dropped. */
    method OnResultInterest(ghost s: Signer, wellNamed: bool) returns (reply: Option<Reply>)
      modifies this
      ensures State() == Step(s, old(State()), Poll(wellNamed))
      ensures reply.Some? <==> old(answering) && wellNamed
      ensures reply.Some? ==> replies == old(replies) + [reply.value]
    {
      if !answering || !wellNamed { return None; }
      var r := GenerateResultData(s);
      return Some(r);
    }

    method OnParameterData(s: Signer, packet: Parameter)
      requires fetching
      modifies this
      ensures State() == Step(s, old(State()), Fetched(packet))
    {
      fetching := false;
      if !packet.hmacValid { return; }
      if packet.decoded.None? {
        code := FailedDependency;
        return;
      }
      if !s.accepts(packet.decoded.value) {
        code := Unauthorized;
        return;
      }
      code := OK;
      signatureValue := Some(Bls.Mul(s.secret, s.hash(packet.decoded.value)));
    }

    method OnFetchFailed(ghost s: Signer, timeout: bool)
      requires fetching
      modifies this
      ensures State() == Step(s, old(State()), if timeout then FetchTimeout else FetchNack)
    {
      fetching := false;
      code := FailedDependency;
    }
  }

  // ----- The sign request and its ack -----

  const MPS: Component := Component(GENERIC_COMPONENT, [109, 112, 115])
  const RESULT: Component := Component(GENERIC_COMPONENT, [114, 101, 115, 117, 108, 116])

  /** An ack: its status, and the key material with the encrypted result name, which
      only the acks of accepted requests carry. */
  datatype Ack = Ack(status: Code, resultName: Option<Name>)

  function ResultPrefix(prefix: Name, requestId: Component): Name { prefix + [MPS, RESULT, requestId] }

  /** What the initiator takes from an ack; None where parsing it throws. */
  function ParseAck(ack: Ack): Option<Name> { if ack.status == Processing then ack.resultName else None }

  /** The names the signer's result filter delivers and its callback answers. */
  predicate WellNamed(prefix: Name, requestId: Component, name: Name) {
    ResultPrefix(prefix, requestId) <= name && |name| == |prefix| + 5
  }

  /** A sign request: one that fails verification or does not parse is refused and
      leaves no record; any other starts a fresh one. A refusal too has the status
      Processing, but the initiator can read exactly the acks of accepted requests. */
  method OnSignRequest(prefix: Name, requestId: Component, firstVersion: Component,
                       verified: bool, digestValid: bool, payloadParses: bool)
    returns (r: Option<SignRequestState>, ack: Ack)
    ensures r.Some? <==> verified && digestValid && payloadParses
    ensures r.Some? ==> fresh(r.value) && r.value.State() == INITIAL
    ensures ack.status == Processing
    ensures ParseAck(ack) == if r.Some? then Some(ResultPrefix(prefix, requestId) + [firstVersion]) else None
  {
    if !verified || !digestValid { return None, Ack(Processing, None); }
    if !payloadParses { return None, Ack(Processing, None); }
    var state := new SignRequestState();
    return Some(state), Ack(Processing, Some(ResultPrefix(prefix, requestId) + [firstVersion]));
  }

  /** The initiator polls the acked name with the digest of the Interest's parameters
      appended: such polls are well named. */
  lemma AckedPollsAreWellNamed(prefix: Name, requestId: Component, firstVersion: Component, ack: Ack, digest: Component)
    requires ParseAck(ack) == Some(ResultPrefix(prefix, requestId) + [firstVersion])
    ensures WellNamed(prefix, requestId, ParseAck(ack).value + [digest])
  {
    var p := ResultPrefix(prefix, requestId);
    assert (p + [firstVersion] + [digest])[..|p|] == p;
  }

  // ----- Whole runs of one request -----

  ghost predicate Admissible(s: Signer, evs: seq<Event>) {
    evs == [] || (Admissible(s, evs[..|evs| - 1]) && Enabled(After(s, evs[..|evs| - 1]), evs[|evs| - 1]))
  }

  ghost function After(s: Signer, evs: seq<Event>): Request {
    if evs == [] then INITIAL else Step(s, After(s, evs[..|evs| - 1]), evs[|evs| - 1])
  }

  /** A packet this signer was sent over the authenticated channel and agreed to sign. */
  ghost predicate Agreed(s: Signer, evs: seq<Event>, d: Bytes) {
    Fetched(Parameter(true, Some(d))) in evs && s.accepts(d)
  }

  /** Replies are versions 1, 2, ..., then at most one final reply, which reports the code. */
  predicate Orderly(r: Request) {
    && |r.replies| == r.version + (if r.answering then 0 else 1)
    && (forall j :: 0 <= j < r.version ==> r.replies[j] == Still(j + 1))
    && (!r.answering ==> r.code != Processing && r.replies[r.version] == Reported(r))
    && (r.fetching ==> r.code == Processing)
  }

  lemma {:induction false} RunIsOrderly(s: Signer, evs: seq<Event>)
    requires Admissible(s, evs)
    ensures Orderly(After(s, evs))
  {
    if evs != [] { RunIsOrderly(s, evs[..|evs| - 1]); }
  }

  /** The signature held is on a packet that was agreed to. */
  lemma {:induction false} SignatureIsAgreed(s: Signer, evs: seq<Event>)
    requires Admissible(s, evs)
    ensures After(s, evs).code == OK ==>
              exists d :: Agreed(s, evs, d) && After(s, evs).signature == Some(Bls.Mul(s.secret, s.hash(d)))
  {
    if evs != [] {
      var init, e := evs[..|evs| - 1], evs[|evs| - 1];
      SignatureIsAgreed(s, init);
      RunIsOrderly(s, init);
      if After(s, evs).code == OK {
        if After(s, init).code == OK {
          var d :| Agreed(s, init, d) && After(s, init).signature == Some(Bls.Mul(s.secret, s.hash(d)));
          assert Agreed(s, evs, d);
        } else {
          assert Agreed(s, evs, e.packet.decoded.value);
        }
      }
    }
  }

  /** In every run: the version counts the 102 replies, which carry versions 1, 2, ...;
      a final reply is sent at most once and last; and a 200 reply carries this
      signer's signature on a packet it was sent authentically and accepted. */
  lemma RunReplies(s: Signer, evs: seq<Event>)
    requires Admissible(s, evs)
    ensures var r := After(s, evs);
            && r.version <= |r.replies| <= r.version + 1
            && (forall j :: 0 <= j < |r.replies| ==> (r.replies[j].Still? <==> j < r.version))
            && (forall j :: 0 <= j < r.version ==> r.replies[j].version == j + 1)
            && (forall sig :: Done(sig) in r.replies ==>
                  exists d :: Agreed(s, evs, d) && sig == Some(Bls.Mul(s.secret, s.hash(d))))
  {
    RunIsOrderly(s, evs);
    SignatureIsAgreed(s, evs);
  }

  /** Once the code has left Processing, neither it nor the signature changes again. */
  lemma {:induction false} CodeIsFinal(s: Signer, evs: seq<Event>, i: nat)
    requires Admissible(s, evs) && i <= |evs| && After(s, evs[..i]).code != Processing
    ensures After(s, evs).code == After(s, evs[..i]).code
    ensures After(s, evs).signature == After(s, evs[..i]).signature
  {
    if i < |evs| {
      var init := evs[..|evs| - 1];
      assert init[..i] == evs[..i];
      CodeIsFinal(s, init, i);
      RunIsOrderly(s, init);
    } else {
      assert evs[..i] == evs;
    }
  }

  /** Exactly when a request never gets past 102: its fetch has ended with a packet
      whose HMAC did not verify, which reports nothing. */
  lemma {:induction false} StuckIff(s: Signer, evs: seq<Event>)
    requires Admissible(s, evs)
    ensures !After(s, evs).fetching ==>
              (After(s, evs).code == Processing <==> exists d :: Fetched(Parameter(false, d)) in evs)
    ensures After(s, evs).fetching <==> forall e :: e in evs ==> e.Poll?
  {
    if evs != [] {
      var init, e := evs[..|evs| - 1], evs[|evs| - 1];
      StuckIff(s, init);
      RunIsOrderly(s, init);
      assert evs == init + [e];
      if e.Fetched? && !e.packet.hmacValid { assert Fetched(Parameter(false, e.packet.decoded)) in evs; }
    }
  }

  // ----- What every outcome and every reply is -----

  ghost predicate Refused(s: Signer, evs: seq<Event>) {
    exists d :: Fetched(Parameter(true, Some(d))) in evs && !s.accepts(d)
  }

  predicate FetchFailed(evs: seq<Event>) {
    Fetched(Parameter(true, None)) in evs || FetchNack in evs || FetchTimeout in evs
  }

  /** Whether the code and the signature say what became of the parameter packet. */
  ghost predicate ReportsOutcome(s: Signer, evs: seq<Event>, r: Request) {
    && (r.code == OK <==> exists d :: Agreed(s, evs, d))
    && (forall d :: Agreed(s, evs, d) ==> r.signature == Some(Bls.Mul(s.secret, s.hash(d))))
    && (r.code == Unauthorized <==> Refused(s, evs))
    && (r.code == FailedDependency <==> FetchFailed(evs))
  }

  /** A poll does not change the outcome, and is none. */
  lemma PollKeepsOutcome(s: Signer, init: seq<Event>, e: Event, before: Request, after: Request)
    requires ReportsOutcome(s, init, before) && e.Poll?
    requires after.code == before.code && after.signature == before.signature
    ensures ReportsOutcome(s, init + [e], after)
  {
    var evs := init + [e];
    assert forall x: Event :: !x.Poll? ==> (x in evs <==> x in init);
    assert forall d :: Agreed(s, evs, d) <==> Agreed(s, init, d);
    assert Refused(s, evs) <==> Refused(s, init);
  }

  /** The first event that is no poll decides. */
  lemma FetchDecides(s: Signer, init: seq<Event>, e: Event, before: Request)
    requires (forall x :: x in init ==> x.Poll?) && !e.Poll? && before.code == Processing
    ensures ReportsOutcome(s, init + [e], Step(s, before, e))
  {
    var evs := init + [e];
    assert forall x: Event :: !x.Poll? ==> (x in evs <==> x == e);
    if e.Fetched? && e.packet.hmacValid && e.packet.decoded.Some? {
      var d := e.packet.decoded.value;
      assert Fetched(Parameter(true, Some(d))) == e;
      assert s.accepts(d) ==> Agreed(s, evs, d);
      assert forall x :: Agreed(s, evs, x) ==> x == d;
    } else {
      assert forall x: Bytes :: Fetched(Parameter(true, Some(x))) != e;
    }
  }

  /** Exactly what becomes of a request: the code is OK when a packet that verified and was
      accepted came, and then the signature is this signer's on that packet; Unauthorized
      when one was refused; FailedDependency when it did not decode or the fetch failed. */
  lemma {:induction false} OutcomeIff(s: Signer, evs: seq<Event>)
    requires Admissible(s, evs)
    ensures ReportsOutcome(s, evs, After(s, evs))
  {
    if evs != [] {
      var init, e := evs[..|evs| - 1], evs[|evs| - 1];
      assert evs == init + [e];
      OutcomeIff(s, init);
      RunIsOrderly(s, init);
      StuckIff(s, init);
      if e.Poll? {
        PollKeepsOutcome(s, init, e, After(s, init), After(s, evs));
      } else {
        FetchDecides(s, init, e, After(s, init));
      }
    }
  }

  lemma OneMore(s: Signer, evs: seq<Event>, e: Event)
    requires Admissible(s, evs) && Enabled(After(s, evs), e)
    ensures Admissible(s, evs + [e]) && After(s, evs + [e]) == Step(s, After(s, evs), e)
  {
    assert (evs + [e])[..|evs + [e]| - 1] == evs;
  }

  /** The reply to a well-named poll, from the events alone. */
  ghost predicate RightReply(s: Signer, evs: seq<Event>, polls: nat, reply: Reply) {
    && (forall d :: Agreed(s, evs, d) ==> reply == Done(Some(Bls.Mul(s.secret, s.hash(d)))))
    && (Refused(s, evs) ==> reply == Failed(Unauthorized))
    && (FetchFailed(evs) ==> reply == Failed(FailedDependency))
    && ((forall d :: !Agreed(s, evs, d)) && !Refused(s, evs) && !FetchFailed(evs) ==> reply == Still(polls + 1))
  }

  /** Every well-named poll before the final reply is answered, with the reply the events
      so far call for; nothing else sends a reply. */
  lemma PollsAreAnswered(s: Signer, evs: seq<Event>, e: Event)
    requires Admissible(s, evs) && Enabled(After(s, evs), e)
    ensures var r := After(s, evs);
            var next := After(s, evs + [e]);
            if e == Poll(true) && r.answering
            then exists reply :: RightReply(s, evs, |r.replies|, reply) && next.replies == r.replies + [reply]
            else next.replies == r.replies
  {
    var r := After(s, evs);
    OneMore(s, evs, e);
    OutcomeIff(s, evs);
    RunIsOrderly(s, evs);
    if e == Poll(true) && r.answering {
      assert RightReply(s, evs, |r.replies|, Reported(r));
    }
  }

  /** Polls are answered until one has met a code other than Processing. */
  lemma {:induction false} AnsweringIff(s: Signer, evs: seq<Event>)
    requires Admissible(s, evs)
    ensures !After(s, evs).answering
       <==> exists i :: 0 <= i < |evs| && evs[i] == Poll(true) && After(s, evs[..i]).code != Processing
  {
    if evs != [] {
      var init, last := evs[..|evs| - 1], |evs| - 1;
      AnsweringIff(s, init);
      RunIsOrderly(s, init);
      assert forall i :: 0 <= i < last ==> init[i] == evs[i] && init[..i] == evs[..i];
      assert evs[..last] == init;
    }
  }
}
