/** From the signers' request records through a whole session to the verifier. */
module EndToEnd {
  import opened Names
  import opened Schemas
  import Bls
  import Container
  import SignerLists
  import opened Sessions
  import opened SessionRuns
  import Progress
  import SharedSessions
  import Verifiers
  import SignRequests

  /** The signer's record of some request, whose authentic parameter packets all carry
      this message, contains a 200 reply with this piece. */
  ghost predicate Served(signer: SignRequests.Signer, message: Bytes, piece: Bls.Scalar) {
    exists evs: seq<SignRequests.Event> ::
      && SignRequests.Admissible(signer, evs)
      && (forall d :: SignRequests.Fetched(SignRequests.Parameter(true, Some(d))) in evs ==> d == message)
      && SignRequests.Done(Some(piece)) in SignRequests.After(signer, evs).replies
  }

  /** Every piece the session stored came from the signer it asked. */
  ghost predicate PiecesServed(c: Config, s: Session, evs: seq<Event>,
                               signers: map<Name, SignRequests.Signer>, message: Bytes) {
    evs == [] ||
    (PiecesServed(c, s, evs[..|evs| - 1], signers, message) &&
     (After(c, s, evs).Some? && evs[|evs| - 1].Piece? ==>
        var key := Before(c, s, evs).rpcs[evs[|evs| - 1].i].key;
        key in signers && Served(signers[key], message, evs[|evs| - 1].signature)))
  }

  function Secrets(signers: map<Name, SignRequests.Signer>): map<Name, Bls.Scalar> {
    map n | n in signers :: signers[n].secret
  }

  /** A served piece is the signer's signature on the message. */
  lemma ServedIsSigned(signer: SignRequests.Signer, message: Bytes, piece: Bls.Scalar)
    requires Served(signer, message, piece)
    ensures piece == Bls.Mul(signer.secret, signer.hash(message)) && signer.accepts(message)
  {
    var evs: seq<SignRequests.Event> :|
      && SignRequests.Admissible(signer, evs)
      && (forall d :: SignRequests.Fetched(SignRequests.Parameter(true, Some(d))) in evs ==> d == message)
      && SignRequests.Done(Some(piece)) in SignRequests.After(signer, evs).replies;
    SignRequests.RunReplies(signer, evs);
    var d :| SignRequests.Agreed(signer, evs, d) && Some(piece) == Some(Bls.Mul(signer.secret, signer.hash(d)));
  }

  lemma {:induction false} ServedIsHonest(c: Config, s: Session, evs: seq<Event>,
                                          signers: map<Name, SignRequests.Signer>, message: Bytes,
                                          hash: Bytes -> Bls.Scalar)
    requires PiecesServed(c, s, evs, signers, message)
    requires forall n :: n in signers ==> signers[n].hash == hash
    ensures HonestPieces(c, s, evs, Secrets(signers), hash(message))
  {
    if evs != [] {
      ServedIsHonest(c, s, evs[..|evs| - 1], signers, message, hash);
      var e := evs[|evs| - 1];
      if After(c, s, evs).Some? && e.Piece? {
        var key := Before(c, s, evs).rpcs[e.i].key;
        ServedIsSigned(signers[key], message, e.signature);
      }
    }
  }

  /** A verifier that has the published keys registered and this rule first for the name. */
  ghost predicate Prepared(schemas: seq<Schema>, trusted: map<Name, Bls.Scalar>, schema: Schema, name: Name,
                           secrets: map<Name, Bls.Scalar>, published: seq<Name>) {
    && Container.FirstMatch(schemas, name) == Some(schema)
    && forall n :: n in published && n in secrets ==> n in trusted && trusted[n] == secrets[n]
  }

  /** What a served piece is, exactly: the signature on the message of a signer that accepts it. */
  lemma ServedIff(signer: SignRequests.Signer, message: Bytes, piece: Bls.Scalar)
    ensures Served(signer, message, piece)
       <==> signer.accepts(message) && piece == Bls.Mul(signer.secret, signer.hash(message))
  {
    if Served(signer, message, piece) { ServedIsSigned(signer, message, piece); }
    if signer.accepts(message) && piece == Bls.Mul(signer.secret, signer.hash(message)) {
      AcceptedIsServed(signer, message);
    }
  }

  lemma AcceptedIsServed(signer: SignRequests.Signer, message: Bytes)
    requires signer.accepts(message)
    ensures Served(signer, message, Bls.Mul(signer.secret, signer.hash(message)))
  {
    var fetched := SignRequests.Fetched(SignRequests.Parameter(true, Some(message)));
    var piece := Bls.Mul(signer.secret, signer.hash(message));
    assert SignRequests.Admissible(signer, []) && SignRequests.After(signer, []) == SignRequests.INITIAL;
    SignRequests.OneMore(signer, [], fetched);
    assert [] + [fetched] == [fetched];
    SignRequests.OneMore(signer, [fetched], SignRequests.Poll(true));
    var evs := [fetched] + [SignRequests.Poll(true)];
    assert SignRequests.After(signer, evs).replies == [] + [SignRequests.Done(Some(piece))];
  }

  /** The verifier accepts nothing else: with the listed signers' keys registered, a packet
      is genuine exactly when its list passes the session's schema and its signature is the
      sum of the listed signers' pieces on exactly its octets. */
  lemma OnlyAggregatesAreGenuine(schemas: seq<Schema>, trusted: map<Name, Bls.Scalar>, schema: Schema,
                                 secrets: map<Name, Bls.Scalar>, hash: Bytes -> Bls.Scalar,
                                 data: Verifiers.SignedData, published: seq<Name>, uninitialised: Bls.Scalar)
    requires Prepared(schemas, trusted, schema, data.name, secrets, published)
    requires published != [] && forall n :: n in published ==> n in secrets
    ensures Verifiers.Genuine(schemas, trusted, hash, data, published, uninitialised)
            <==> Passes(schema, published)
                 && data.signature
                    == Bls.Sum(Bls.Pieces(Container.KeysOf(secrets, published), hash(data.signedPortion)))
  {
    Verifiers.GenuineIff(schemas, trusted, hash, data, published, uninitialised);
    assert Container.KeysOf(trusted, published) == Container.KeysOf(secrets, published);
    Bls.SumOfPieces(Container.KeysOf(secrets, published), hash(data.signedPortion));
  }

  /** End to end: for every run of a session with signers that follow the protocol,
      when success is reported, the published packet carries an aggregate that verifies
      under the listed keys; so the verifier, reading the list back from its wire form,
      finds the packet genuine exactly when the published list passes the schema. */
  lemma SuccessIsGenuineIff(c: Config, s: Session, evs: seq<Event>, t: Session,
                            signers: map<Name, SignRequests.Signer>, hash: Bytes -> Bls.Scalar,
                            signature: Bls.Scalar, published: seq<Name>,
                            schemas: seq<Schema>, trusted: map<Name, Bls.Scalar>,
                            name: Name, message: Bytes, locator: Name, uninitialised: Bls.Scalar)
    requires Reaches(c, s, evs, t) && Success(signature, published) in t.callbacks
    requires PiecesServed(c, s, evs, signers, message) && forall n :: n in signers ==> signers[n].hash == hash
    requires Prepared(schemas, trusted, c.schema, name, Secrets(signers), published) && SignerLists.Encodable(published)
    ensures var data := Verifiers.SignedData(name, Some(locator), message, signature);
            var info := Verifiers.InfoData(locator, SignerLists.EncodeBlock(SignerLists.ListBlock(published)));
            && Verifiers.LocatorMatches(data, info) && Verifiers.PublishedList(info) == Some(published)
            && Container.AggregatedKey(trusted, published, uninitialised).Some?
            && Bls.Verifies(Container.AggregatedKey(trusted, published, uninitialised).value, hash(message), signature)
            && (Verifiers.Genuine(schemas, trusted, hash, data, published, uninitialised)
                <==> Passes(c.schema, published))
  {
    var secrets := Secrets(signers);
    ServedIsHonest(c, s, evs, signers, message, hash);
    SuccessVerifies(c, s, evs, t, secrets, hash(message), signature, published);
    Verifiers.PublishedReadBack(locator, published);
    assert Container.KeysOf(trusted, published) == Container.KeysOf(secrets, published);
  }

  /** The same where the cache is not reset and no loss leaves a passing list two short
      (so always, when each key serves one optional pattern), whoever else uses the
      container: the verifier finds a reported packet genuine exactly when the published
      names and the names never lost can pass the schema. */
  lemma SuccessIsGenuineIffFeasible(c: Config, s: Session, evs: seq<Event>, t: Session,
                                    signers: map<Name, SignRequests.Signer>, hash: Bytes -> Bls.Scalar,
                                    signature: Bls.Scalar, published: seq<Name>,
                                    schemas: seq<Schema>, trusted: map<Name, Bls.Scalar>,
                                    name: Name, message: Bytes, locator: Name, uninitialised: Bls.Scalar)
    requires Reaches(c, s, evs, t) && Success(signature, published) in t.callbacks
    requires PiecesServed(c, s, evs, signers, message) && forall n :: n in signers ==> signers[n].hash == hash
    requires Prepared(schemas, trusted, c.schema, name, Secrets(signers), published) && SignerLists.Encodable(published)
    requires Reset !in evs && NeverTwoShort(c, s, evs) && [] !in c.trusted
    ensures var data := Verifiers.SignedData(name, Some(locator), message, signature);
            Verifiers.Genuine(schemas, trusted, hash, data, published, uninitialised)
            <==> Feasible(c.schema, Elements(published) + Reachable(c, t))
  {
    SuccessIsGenuineIff(c, s, evs, t, signers, hash, signature, published,
                        schemas, trusted, name, message, locator, uninitialised);
    PublishedPassesIff(c, s, evs, t, signature, published);
  }

  /** For a session that alone uses its container: exactly when the keys never lost can
      still pass the schema. */
  lemma PrivateSuccessIsGenuineIff(c: Config, s: Session, evs: seq<Event>, t: Session,
                                   signers: map<Name, SignRequests.Signer>, hash: Bytes -> Bls.Scalar,
                                   signature: Bls.Scalar, published: seq<Name>,
                                   schemas: seq<Schema>, trusted: map<Name, Bls.Scalar>,
                                   name: Name, message: Bytes, locator: Name, uninitialised: Bls.Scalar)
    requires Reaches(c, s, evs, t) && Success(signature, published) in t.callbacks
    requires PiecesServed(c, s, evs, signers, message) && forall n :: n in signers ==> signers[n].hash == hash
    requires Prepared(schemas, trusted, c.schema, name, Secrets(signers), published) && SignerLists.Encodable(published)
    requires Private(evs) && OneOptionalEach(c) && [] !in c.trusted
    ensures var data := Verifiers.SignedData(name, Some(locator), message, signature);
            Verifiers.Genuine(schemas, trusted, hash, data, published, uninitialised)
            <==> Feasible(c.schema, Reachable(c, t))
  {
    SuccessIsGenuineIff(c, s, evs, t, signers, hash, signature, published,
                        schemas, trusted, name, message, locator, uninitialised);
    OneRoleNeverTwoShort(c, s, evs);
    PrivatePublishedPassesIff(c, s, evs, t, signature, published);
  }

  /** For any of the sessions of an interleaving on one container: the verifier finds
      its packet genuine exactly when the published list passes; and unless the cache is
      cleared or a loss leaves a passing list two short, that is exactly when the
      published names and those no session has lost can pass the schema. */
  lemma SharedSuccessIsGenuineIff(acts: seq<SharedSessions.Action>, w: SharedSessions.Initiator, j: nat,
                                  signers: map<Name, SignRequests.Signer>, hash: Bytes -> Bls.Scalar,
                                  signature: Bls.Scalar, published: seq<Name>,
                                  schemas: seq<Schema>, trusted: map<Name, Bls.Scalar>,
                                  name: Name, message: Bytes, locator: Name, uninitialised: Bls.Scalar)
    requires SharedSessions.AfterAll(acts) == Some(w) && j < |w.members|
    requires Success(signature, published) in w.members[j].now.callbacks
    requires PiecesServed(w.members[j].settings, w.members[j].start, SharedSessions.Seen(acts, j), signers, message)
    requires forall n :: n in signers ==> signers[n].hash == hash
    requires Prepared(schemas, trusted, w.members[j].settings.schema, name, Secrets(signers), published)
    requires SignerLists.Encodable(published)
    ensures var c := w.members[j].settings;
            var data := Verifiers.SignedData(name, Some(locator), message, signature);
            var info := Verifiers.InfoData(locator, SignerLists.EncodeBlock(SignerLists.ListBlock(published)));
            var genuine := Verifiers.Genuine(schemas, trusted, hash, data, published, uninitialised);
            && Verifiers.PublishedList(info) == Some(published)
            && (genuine <==> Passes(c.schema, published))
            && (SharedSessions.ClearCache !in acts && [] !in c.trusted
                && NeverTwoShort(c, w.members[j].start, SharedSessions.Seen(acts, j)) ==>
                  (genuine <==> Feasible(c.schema, Elements(published) + (c.trusted - w.unavailable))))
  {
    var m, evs := w.members[j], SharedSessions.Seen(acts, j);
    SharedSessions.EverySessionFollowsItsEvents(acts, w);
    ServedIsHonest(m.settings, m.start, evs, signers, message, hash);
    SharedSessions.SharedSuccess(acts, w, j, Secrets(signers), hash(message), signature, published);
    SuccessIsGenuineIff(m.settings, m.start, evs, m.now, signers, hash, signature, published,
                        schemas, trusted, name, message, locator, uninitialised);
  }

  /** Honest pieces of signers that accept the message are served. */
  lemma {:induction false} HonestIsServed(c: Config, s: Session, evs: seq<Event>,
                                          signers: map<Name, SignRequests.Signer>, message: Bytes,
                                          hash: Bytes -> Bls.Scalar, secrets: map<Name, Bls.Scalar>)
    requires HonestPieces(c, s, evs, secrets, hash(message))
    requires forall n :: n in signers ==> signers[n].hash == hash
    requires forall n :: n in secrets ==>
               n in signers && signers[n].secret == secrets[n] && signers[n].accepts(message)
    ensures PiecesServed(c, s, evs, signers, message)
  {
    if evs != [] {
      HonestIsServed(c, s, evs[..|evs| - 1], signers, message, hash, secrets);
      var e := evs[|evs| - 1];
      if After(c, s, evs).Some? && e.Piece? {
        AcceptedIsServed(signers[Before(c, s, evs).rpcs[e.i].key], message);
      }
    }
  }

  /** The protocol can do its work: from every initial state with somebody to ask, when the
      listed signers accept the message, some run with pieces they serve reports a success
      for the initial list, and a prepared verifier finds the packet genuine. */
  lemma GenuineIsPossible(c: Config, s: Session, signers: map<Name, SignRequests.Signer>, hash: Bytes -> Bls.Scalar,
                          schemas: seq<Schema>, trusted: map<Name, Bls.Scalar>,
                          name: Name, message: Bytes, locator: Name, uninitialised: Bls.Scalar)
    returns (evs: seq<Event>, t: Session, signature: Bls.Scalar)
    requires Initial(c, s) && s.signers != [] && SignerLists.Encodable(s.signers)
    requires forall n :: n in signers ==> signers[n].hash == hash
    requires forall n :: n in s.signers ==> n in signers && signers[n].accepts(message)
    requires Prepared(schemas, trusted, c.schema, name, Secrets(signers), s.signers)
    ensures Reaches(c, s, evs, t) && PiecesServed(c, s, evs, signers, message)
    ensures t.callbacks == [Success(signature, s.signers)]
    ensures var data := Verifiers.SignedData(name, Some(locator), message, signature);
            Verifiers.Genuine(schemas, trusted, hash, data, s.signers, uninitialised)
  {
    var willing := map n | n in signers && signers[n].accepts(message) :: signers[n].secret;
    InitialIsLive(c, s);
    assert Reaches(c, s, [], s) && Progress.Open(s);
    evs, t := Progress.OpenCanSucceed(c, s, [], s, willing, hash(message));
    signature := Bls.Sum(t.fetched);
    HonestIsServed(c, s, evs, signers, message, hash, willing);
    SuccessIsGenuineIff(c, s, evs, t, signers, hash, signature, s.signers,
                        schemas, trusted, name, message, locator, uninitialised);
  }
}
