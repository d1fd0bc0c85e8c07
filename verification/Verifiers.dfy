/** The verifier of a multi-signed packet. */
module Verifiers {
  import opened Names
  import opened Schemas
  import Bls
  import Container
  import SignerLists

  /** A signed packet: its key locator if that is a name, the signed octets, the signature. */
  datatype SignedData = SignedData(name: Name, keyLocator: Option<Name>, signedPortion: Bytes, signature: Bls.Scalar)

  /** The packet that carries the signer list. */
  datatype InfoData = InfoData(name: Name, content: Bytes)

  datatype Verdict = Accept | Reject | Throws

  /** The first element of that type. */
  function Find(bs: seq<SignerLists.Block>, kind: nat): Option<SignerLists.Block> {
    if bs == [] then None else if bs[0].kind == kind then Some(bs[0]) else Find(bs[1..], kind)
  }

  /** The list in an information packet; None where reading it throws. */
  function PublishedList(info: InfoData): Option<seq<Name>> {
    match SignerLists.ParseBlocks(info.content)
    case None => None
    case Some(bs) =>
      match Find(bs, SignerLists.SIGNER_LIST_TYPE)
      case None => None
      case Some(wire) => SignerLists.DecodeList(wire)
  }

  predicate LocatorMatches(data: SignedData, info: InfoData) {
    data.keyLocator.Some? && data.keyLocator.value <= info.name
  }

  ghost predicate Genuine(schemas: seq<Schema>, trusted: map<Name, Bls.Scalar>, hash: Bytes -> Bls.Scalar,
                          data: SignedData, signers: seq<Name>, uninitialised: Bls.Scalar) {
    && Container.Accepts(schemas, trusted.Keys, data.name, signers)
    && var key := Container.AggregatedKey(trusted, signers, uninitialised);
       key.Some? && Bls.Verifies(key.value, hash(data.signedPortion), data.signature)
  }

  /** The signature is the one that goes with the sum of exactly the listed keys. */
  predicate SignedByAll(trusted: map<Name, Bls.Scalar>, signers: seq<Name>, hashed: Bls.Scalar, signature: Bls.Scalar) {
    && (forall n :: n in signers ==> n in trusted)
    && signature == Bls.Mul(Bls.Sum(Container.KeysOf(trusted, signers)), hashed)
  }

  /** For a list of signers there is one genuine signature, which the listed keys and the
      signed octets determine. Only for the empty list the uninitialised key decides. */
  lemma GenuineIff(schemas: seq<Schema>, trusted: map<Name, Bls.Scalar>, hash: Bytes -> Bls.Scalar,
                   data: SignedData, signers: seq<Name>, uninitialised: Bls.Scalar)
    ensures signers != [] ==>
              (Genuine(schemas, trusted, hash, data, signers, uninitialised) <==>
               Container.Accepts(schemas, trusted.Keys, data.name, signers)
               && SignedByAll(trusted, signers, hash(data.signedPortion), data.signature))
    ensures signers == [] ==>
              (Genuine(schemas, trusted, hash, data, signers, uninitialised) <==>
               Container.Accepts(schemas, trusted.Keys, data.name, [])
               && data.signature == Bls.Mul(uninitialised, hash(data.signedPortion)))
  {
    assert forall n :: n in signers ==> n in Elements(signers);
  }

  /** Accepts exactly when the locator leads to the information packet, the list in it
      is accepted by the container, and the signature verifies under the sum of exactly
      the listed keys; throws only when the list cannot be read. */
  method Verify(container: Container.MultipartySchemaContainer, hash: Bytes -> Bls.Scalar,
                data: SignedData, info: InfoData, uninitialised: Bls.Scalar) returns (v: Verdict)
    ensures v == Accept <==>
              LocatorMatches(data, info) && PublishedList(info).Some? &&
              Genuine(container.schemas, container.trustedIds, hash, data, PublishedList(info).value, uninitialised)
    ensures v == Throws <==> LocatorMatches(data, info) && PublishedList(info).None?
    ensures data.keyLocator.None? || !(data.keyLocator.value <= info.name) ==> v == Reject
    ensures data.keyLocator.Some? && data.keyLocator.value <= info.name
            && PublishedList(info).Some? && PublishedList(info).value != [] ==>
              var signers := PublishedList(info).value;
              v == if Container.Accepts(container.schemas, container.trustedIds.Keys, data.name, signers)
                      && SignedByAll(container.trustedIds, signers, hash(data.signedPortion), data.signature)
                   then Accept else Reject
  {
    if data.keyLocator.None? || !(data.keyLocator.value <= info.name) { return Reject; }
    var elements := SignerLists.ParseBlocks(info.content);
    if elements.None? { return Throws; }
    var wire := Find(elements.value, SignerLists.SIGNER_LIST_TYPE);
    if wire.None? { return Throws; }
    var signerList := new SignerLists.MpsSignerList([]);
    var ok := signerList.WireDecode(wire.value);
    if !ok { return Throws; }
    var pass := container.PassSchema(data.name, signerList.signers);
    if !pass { return Reject; }
    var aggKey := container.AggregateKey(signerList.signers, uninitialised);
    GenuineIff(container.schemas, container.trustedIds, hash, data, signerList.signers, uninitialised);
    assert forall n :: n in signerList.signers ==> n in Elements(signerList.signers);
    if data.signature == Bls.Mul(aggKey.value, hash(data.signedPortion)) { return Accept; }
    return Reject;
  }

  /** The list is found among other elements of the content, the first one if several. */
  lemma PublishedAmongOthers(name: Name, before: seq<SignerLists.Block>, signers: seq<Name>,
                             after: seq<SignerLists.Block>)
    requires SignerLists.Encodable(signers)
    requires forall b :: b in before + after ==> SignerLists.ValidBlock(b)
    requires forall b :: b in before ==> b.kind != SignerLists.SIGNER_LIST_TYPE
    ensures var elements := before + [SignerLists.ListBlock(signers)] + after;
            PublishedList(InfoData(name, SignerLists.EncodeBlocks(elements))) == Some(signers)
  {
    var list := SignerLists.ListBlock(signers);
    SignerLists.ListRoundTrip(signers);
    SignerLists.BlocksRoundTrip(before + [list] + after);
    FindAfter(before, list, after);
  }

  lemma {:induction false} FindAfter(before: seq<SignerLists.Block>, found: SignerLists.Block,
                                     after: seq<SignerLists.Block>)
    requires forall b :: b in before ==> b.kind != found.kind
    ensures Find(before + [found] + after, found.kind) == Some(found)
  {
    if before != [] {
      assert (before + [found] + after)[1..] == before[1..] + [found] + after;
      FindAfter(before[1..], found, after);
    }
  }

  /** Without such an element the list cannot be read. */
  lemma {:induction false} FindsNothing(bs: seq<SignerLists.Block>, kind: nat)
    ensures Find(bs, kind).None? <==> forall b :: b in bs ==> b.kind != kind
  {
    if bs != [] {
      FindsNothing(bs[1..], kind);
      assert bs == [bs[0]] + bs[1..];
    }
  }

  /** What the initiator publishes as content is read back as the same list. */
  lemma PublishedReadBack(name: Name, signers: seq<Name>)
    requires SignerLists.Encodable(signers)
    ensures PublishedList(InfoData(name, SignerLists.EncodeBlock(SignerLists.ListBlock(signers)))) == Some(signers)
  {
    SignerLists.ListRoundTrip(signers);
    assert Find([SignerLists.ListBlock(signers)], SignerLists.SIGNER_LIST_TYPE) == Some(SignerLists.ListBlock(signers));
  }
}
