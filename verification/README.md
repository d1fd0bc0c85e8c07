# Verification of the multi-party signing engine

A Dafny 4.11 model of the NDN multi-party signature library, with proofs. `dafny verify dfyconfig.toml` checks it all.

The library lets an initiator collect one BLS signature piece per signer, replacing signers that do not answer, and publish
the packet with the aggregated signature and the list of signers. A trust schema says who must sign (`all-of`, with
multiplicities such as `3x/a/*`) and how many optional signers are needed (`at-least-num` over `at-least`).

| file | what it models |
|---|---|
| `Names.dfy` | names, the canonical order, `std::set` and `std::vector` of names |
| `Patterns.dfy` | wildcard names: matching and the text parser |
| `Schemas.dfy` | the list check `passSchema`, against the set reading of a schema |
| `Replacement.dfy` | what `replaceSigner` computes, and what the repaired list is worth |
| `Additions.dfy` | which keys a replacement adds, step by step |
| `Container.dfy` | the schema container as a class: the loops, proved against the functions above |
| `Bls.dfy` | aggregation and verification in the exponent, modulo the group order |
| `SignerLists.dfy` | the published signer list: TLV form, decoding in place, comparison by sorting |
| `SignRequests.dfy` | one request at a signer: parameter fetch interleaved with result polls |
| `Sessions.dfy` | one session at the initiator: class, step function, session invariant |
| `SessionRuns.dfy` | theorems over every run of a session |
| `Progress.dfy` | what a session can still do: every live RPC can sign, success stays possible |
| `SharedSessions.dfy` | any number of sessions on one container |
| `Verifiers.dfy`, `EndToEnd.dfy` | the verifier, and the theorem from signers to verifier |
| `Findings.dfy` | concrete runs at the edge of the conditions used elsewhere |

A session is a value `Session` with a step function `Step` over events (acks, polls, 102 results, pieces, discarded replies,
losses, other sessions, cache resets); a run is any sequence of enabled events. The class `MultiSignSession` holds the
mutable state, and its methods are proved to take exactly these steps. Each RPC keeps a final phase, so who signed, who was
dropped without report and who was given up at a failure can be read off the state.

Main results:

- **End to end.** Whatever happens in a run, when success is reported the signature verifies under the sum of the keys of
  exactly the published list, and a prepared verifier finds the packet genuine exactly when that list passes the schema
  (`EndToEnd.SuccessIsGenuineIff`). As long as the cache is not reset and no loss leaves a passing list two short, that is
  exactly when the published names and the names never lost can pass it, whoever else marks names in the container
  (`EndToEnd.SuccessIsGenuineIffFeasible`); the same holds of every session in every interleaving on one container
  (`EndToEnd.SharedSuccessIsGenuineIff`).
- **Nothing else is accepted, and the protocol can do its work.** A packet is genuine only with the sum of the listed signers'
  pieces (`EndToEnd.OnlyAggregatesAreGenuine`); with willing signers a genuine packet can be produced from every feasible
  start (`EndToEnd.GenuineIsPossible`), and a session can still succeed exactly while it is open (`Progress.SuccessPossibleIff`).
- **Why comparing two sizes is enough.** `Sessions.RunKeepsGood` and `Sessions.EqualSizesMeanAllSigned`.
- **Sessions that share a container** each make a run of the events they see, and the cache holds exactly what some of them
  lost (`SharedSessions.EverySessionFollowsItsEvents`, `CacheIsLosses`).
- **The constructor of signer lists is exact** and agrees with the list check (`GetAvailableSigners`); every name it lists is
  owed to a pattern. A replacement adds exactly the keys that the patterns in order call for (`Additions.ReplaceStepByStep`).
- **Failure is never premature**, required patterns always stay filled, contact is bounded without cache resets.

What the code does not do, each with the exact condition and an input:

- A success can be reported for a list that does not pass the schema, because running out of optional signers is not a
  failure. Input: `Findings.SuccessWithoutTheSchema`. Exactly when: `SessionRuns.PublishedPassesIff`. That no reset happens is
  needed there (`Findings.ResetHidesTheLoss`).
- A key that serves two optional patterns is not made up for by one new key. Input: `Findings.TwoPatternsLost`. Exactly when:
  `Replacement.ReplaceFallsShortIff`, over whole runs `SessionRuns.AlwaysPassesIfPossibleIff`; never, when the list is at
  most one short without the key (`Replacement.ReplaceKeepsPassing`), so never with one optional pattern per key
  (`SessionRuns.OneRoleNeverTwoShort`).
- A session can end in silence when a loss only shortens the list. Input: `Findings.SilentSession`. Exactly when:
  `Replacement.ReplaceIdleIff`, over whole runs `SessionRuns.SilentRunIff`.
- With cache resets two keys can be contacted any number of times (`Findings.ResetsUnboundContact`); without, never more
  than once each (`SessionRuns.BoundedContact`).
- A parameter packet whose HMAC does not verify leaves the signer answering 102 for ever. Input: `Findings.StuckRequest`.
  Exactly when: `SignRequests.StuckIff`.
- A refused sign request is acked with the status Processing but without a result name. The initiator cannot read exactly
  these acks (`SignRequests.OnSignRequest`) and drops them without looking for another signer, so that session never
  succeeds (`SessionRuns.DroppedNeverSucceeds`).
- The list check counts a repeated name again, although the documentation asks for different names, and `operator==` compares
  multisets although it is documented to compare sets. Input to both: `Findings.RepeatedName`. Exactly when:
  `Schemas.DuplicatesDecide` and `Names.ComparedAsSets`.
- When several rules match a packet name the first one decides, although the documentation lets any of them do. Input:
  `Findings.LaterRuleIgnored`. Exactly when: `Container.FirstRuleDecides`. The end-to-end theorems ask that the session's
  schema is that rule.

## Model

Main results first, then what they rest on.

| member | source | states |
|---|---|---|
| EndToEnd.SuccessIsGenuineIff | src/verifier.cpp:34-65 | end to end, for every run: the published packet's aggregate verifies, and the verifier finds it genuine if and only if the published list passes the schema |
| EndToEnd.OnlyAggregatesAreGenuine | src/verifier.cpp:51-65 | with the listed keys registered, a packet is genuine if and only if its list passes and its signature is the sum of the listed signers' pieces on its octets |
| EndToEnd.SuccessIsGenuineIffFeasible | src/verifier.cpp:34-65 | whoever else uses the container: without resets, and unless a loss leaves a passing list two short, the verifier finds a reported packet genuine if and only if the published names and the names never lost can pass the schema |
| EndToEnd.SharedSuccessIsGenuineIff | src/verifier.cpp:34-65 | for every session of every interleaving on one container: genuine if and only if the published list passes, and under the same conditions if and only if the published names and those no session has lost can pass |
| EndToEnd.PrivateSuccessIsGenuineIff | src/verifier.cpp:34-65 | corollary for a session alone on its container with one optional pattern per key: if and only if the keys never lost can pass the schema |
| EndToEnd.GenuineIsPossible | src/initiator.cpp:150-353 | from every initial state with somebody to ask, when the listed signers accept the message, some run with pieces they serve ends in a success whose packet the verifier finds genuine |
| SessionRuns.SuccessVerifies | src/initiator.cpp:240-264 | in every run with honest pieces the reported signature verifies under the keys of exactly the published, duplicate-free, trusted list |
| Sessions.RunKeepsGood | src/initiator.cpp:150-353 | session invariant in every reachable state: the duplicate-free list is one to one the signers that signed, are live, were dropped or abandoned; pieces are one per signed member; callbacks are failures only, or one success |
| Sessions.EqualSizesMeanAllSigned | src/initiator.cpp:242-244 | as many pieces as signers means the pieces are exactly those of the list |
| SessionRuns.ListPassesIff | src/initiator.cpp:334-353 | without resets and unless a loss leaves a passing list two short, a reachable list passes if and only if its names and the names still in reach can pass |
| SessionRuns.PublishedPassesIff | src/initiator.cpp:240-264 | under the same conditions, marks of other sessions included, a published list passes if and only if the published names and the names never lost can pass |
| SessionRuns.AlwaysPassesIfPossibleIff | src/initiator.cpp:334-353 | without resets, no state of a run has a failing list that the names in reach could complete, if and only if no loss of the run falls short |
| SessionRuns.FailureMeansInfeasible | src/initiator.cpp:344-346 | without resets, a reported failure means that no available keys can pass |
| SessionRuns.SilentRunIff | src/initiator.cpp:240-352 | a finished run without dropped replies has reported nothing if and only if its last live RPC ended in such a loss with nothing reported before |
| Progress.SuccessPossibleIff | src/initiator.cpp:182-306 | from a reachable state some continuation reports success if and only if it has been reported, or nothing was reported, nothing dropped and some RPC is live |
| Progress.OpenCanSucceed | src/initiator.cpp:182-306 | from such a state some continuation with honest pieces reports success for the list as it is |
| Progress.LiveRpcCanSign | src/initiator.cpp:182-306 | from every live RPC, whatever its number and however many 102 results come first, the events to its piece are an enabled run that stores exactly this piece and leaves the rest alone |
| SessionRuns.BoundedContact | src/initiator.cpp:328-351 | without resets each trusted key is contacted at most once; RPCs and replacement calls are at most the trusted keys |
| SharedSessions.EverySessionFollowsItsEvents | src/initiator.cpp:341-343 | in every interleaving of sessions on one container, the events a session sees (its own, a mark for every loss elsewhere, a reset for every clear) are a run that leads to its state |
| SharedSessions.CacheIsLosses | src/schema.cpp:300 | until it is cleared, the shared cache holds exactly the keys some session has lost |
| SharedSessions.SharedSuccess | src/initiator.cpp:240-264 | a success any session reports verifies under the published keys, and its list passes under the condition of PublishedPassesIff with the names no session has lost |
| SharedSessions.SharedFailureMeansInfeasible | src/initiator.cpp:344-346 | without clears, a failure any session reports means that the names no session has lost cannot pass its schema |
| SharedSessions.SharedContactIsBounded | src/initiator.cpp:328-351 | without clears, each session of an interleaving contacts each trusted key at most once |
| Container.MultipartySchemaContainer.GetAvailableSigners | src/schema.cpp:239-271 | returns rather than throws if and only if the schema is feasible; the list is duplicate-free, available, passes, is no longer than the required multiplicities plus max(1, at-least-num), and holds exactly the chosen names: the first matches of each required pattern and of each optional one as far as the threshold needs them |
| Container.ChosenIsOwed | src/schema.cpp:242-268 | a chosen name is among the first matches, as many as its multiplicity, of some pattern of the schema |
| Container.QuotasAddUp | src/schema.cpp:253-269 | what is taken from the optional patterns adds up to the threshold or to all the names allow, and to one name at most when the threshold is zero |
| Container.EarlierFirst | src/schema.cpp:254-266 | a later optional pattern gives names only when the earlier ones have given all they can and the threshold is not reached |
| Additions.ReplaceStepByStep | src/schema.cpp:300-339 | the exact result: in order, each required pattern that matches the lost key and has room adds its first unlisted available match, then the first optional pattern that has room and such a match adds one; the keys returned are the new ones |
| Additions.ReplaceAddsOwed | src/schema.cpp:309-336 | at most one key per required pattern that matches the lost key and has room, plus one; each is owed to such a pattern or to an optional one, and no earlier unlisted match is passed over |
| Replacement.ReplaceMaximal | src/schema.cpp:324-336 | the optional loop raises the capped total, or no available list has a larger one and the result passes whenever the schema is feasible |
| Replacement.ReplaceKeepsPassing | src/schema.cpp:295-339 | if the list met the required part and without the lost key is at most one short, the new list passes if and only if it would with every available name added; so it passes or the schema is no longer feasible |
| Replacement.ReplaceFallsShortIff | src/schema.cpp:324-339 | a replacement gives a failing list that the available names could complete if and only if the threshold is above what the repair reaches but not above what all available names reach |
| Replacement.ReplaceFailsIff | src/schema.cpp:318-339 | a list is given up if and only if a required pattern of the lost key cannot be filled even with all kept and available names, or the lost key was alone, nothing is required and no available name counts |
| Replacement.ReplaceFailsOnlyIfInfeasible | src/schema.cpp:318-339 | an empty result means that no available names can pass the schema |
| Replacement.ReplaceIdleIff | src/schema.cpp:307-339 | the list only gets shorter if and only if somebody is left on it, those left fill every required pattern of the lost key, and fill or exhaust every optional one |
| Replacement.ReplaceConserves | src/schema.cpp:300-339 | new list = old list without the lost key, plus the returned keys, disjointly; the lost key is in neither; sizes add up |
| Replacement.ReplaceKeepsRequired | src/schema.cpp:300-323 | if the old list meets every required multiplicity so does any non-empty result |
| Schemas.PassesIsSatisfies | src/schema.cpp:190-221 | on duplicate-free lists the counting condition is the documented set reading; on any list it accepts whatever the reading accepts |
| Schemas.DuplicatesDecide | include/ndnmps/schema.hpp:54-71 | the two agree under every schema if and only if the list has no duplicates |
| Container.FirstRuleDecides | src/schema.cpp:231-235 | the first matching rule never accepts what no matching rule accepts; it accepts all lists that any of them accepts, as documented, if and only if every trusted list that passes one of them passes the first |
| Names.ComparedAsSets | include/ndnmps/mps-signer-list.hpp:63-70 | comparing as multisets is comparing as sets, against all duplicate-free lists, if and only if the list has no duplicates |
| SignRequests.OutcomeIff | src/signer.cpp:240-285 | in every run: OK with this signer's signature on the packet if and only if a verified packet was accepted; Unauthorized if and only if one was refused; FailedDependency if and only if it did not decode or the fetch failed |
| SignRequests.PollsAreAnswered | src/signer.cpp:80-110 | every well-named poll before the final reply is answered, with the reply the events so far call for; nothing else sends a reply |
| SignRequests.RunReplies | src/signer.cpp:80-110 | in every run the version counts the 102 replies, which carry 1, 2, ...; at most one final reply, last; a 200 reply carries this signer's signature on an authentic packet it accepted |
| SignRequests.CodeIsFinal | src/signer.cpp:240-285 | once the code has left Processing neither it nor the signature changes |
| SignRequests.StuckIff | src/signer.cpp:245-250 | after the fetch has ended the request is still Processing if and only if its packet failed HMAC verification |
| SignRequests.AnsweringIff | src/signer.cpp:97-104 | polls are answered until one has met a code other than Processing |
| EndToEnd.ServedIff | src/signer.cpp:264-269 | a signer can serve a piece on a message if and only if it accepts the message and the piece is its signature on it |
| Bls.AggregateVerifies | src/bls-helpers.cpp:134-218 | pieces summed in arrival order verify under keys summed in list order |
| Bls.AggregateVerifiesIff | src/bls-helpers.cpp:134-218 | unless the hash is degenerate, the aggregate verifies under a list if and only if the secrets behind pieces and list have the same sum |
| Verifiers.Verify | src/verifier.cpp:18-66 | accepts if and only if the locator is a prefix of the list packet's name, the list can be read, the container accepts it and the signature is the product of the sum of the listed keys and the hash of the packet; throws if and only if the list cannot be read; rejects otherwise |
| Verifiers.GenuineIff | src/verifier.cpp:51-65 | for each list there is one genuine signature; only for the empty list the uninitialised key decides |
| SignerLists.ListRoundTrip | src/mps-signer-list.cpp:23-56 | decoding the encoding gives the same names in the same order |
| Patterns.ParseRoundTrip | src/schema.cpp:41-76 | for every count in the int range and slash-free components, parsing "Nx/" and their join gives that multiplicity (negative counts wrap around) and a pattern that matches exactly the names with every literal component in place |
| Findings.SuccessWithoutTheSchema | src/schema.cpp:324-338 | a run that reports success for a list that does not pass |
| Findings.SilentSession | src/initiator.cpp:347-352 | a run that ends without any report although every listed signer has signed |
| Findings.TwoPatternsLost | src/schema.cpp:324-336 | a replacement that fails a feasible schema because the lost key served two optional patterns and left the list two short |
| Findings.LaterRuleIgnored | src/schema.cpp:231-235 | two rules for one name and a list that passes the second and is rejected |
| Findings.RepeatedName | include/ndnmps/mps-signer-list.hpp:63-70 | a list with a repeated name that differs from the list of its names, and passes a schema its names do not satisfy |
| Findings.StuckRequest | src/signer.cpp:245-250 | for every n a request that has answered n polls with 102 after its fetch ended |
| Findings.ResetsUnboundContact | include/ndnmps/schema.hpp:169-172 | with resets, for every n a run that starts more than n RPCs for two keys |
| Findings.ResetHidesTheLoss | include/ndnmps/schema.hpp:169-172 | with a reset a failing list is published although published and reachable names could pass |
| SessionRuns.CallbackSafety | src/initiator.cpp:243-263 | success is reported at most once, never beside a failure, for the current list, with no RPC live |
| SessionRuns.SuccessIsFinal | src/initiator.cpp:243-263 | nothing of a session changes after its success |
| SessionRuns.DroppedNeverSucceeds | src/initiator.cpp:196-200 | a run with one silently discarded reply never reports success |
| SessionRuns.RequiredAlwaysMet | src/initiator.cpp:334-353 | every reachable list meets the required part of the schema |
| SessionRuns.ListPassesOrInfeasible | src/initiator.cpp:334-353 | corollary: with one optional pattern per key, every reachable list passes or the schema is no longer feasible |
| SessionRuns.PrivatePublishedPassesIff | src/initiator.cpp:240-264 | alone on its container a session publishes only names still in reach, and the condition is that the keys never lost can pass |
| SessionRuns.OneRoleNeverTwoShort | src/initiator.cpp:334-353 | with one optional pattern per key no loss of a run leaves a passing list two short |
| SessionRuns.LossShrinks | src/initiator.cpp:341-343 | alone on its container, a session loses one reachable key per replacement call |
| SessionRuns.LossesAreLostRpcs | src/initiator.cpp:334-353 | replacement calls are exactly the RPCs that ended lost |
| SessionRuns.FailuresAreAbandonments | src/initiator.cpp:344-346 | in every run the failures reported are one per abandoned signer, and one when there is nobody to ask |
| SessionRuns.SilentIff | src/initiator.cpp:240-269 | the event that ends the last live RPC, without dropped replies, leaves the session unreported if and only if nothing was reported before and it is a loss after which somebody is left and every pattern to repair is full or exhausted |
| SessionRuns.QuiescentMeansReported | src/initiator.cpp:240-352 | without dropped replies and without such losses, a session with no live RPC has reported |
| Progress.WaitingChangesNothing | src/initiator.cpp:271-277 | any number of 102 results, each followed by the next poll, is an enabled run that changes nothing |
| Sessions.MultiPartySign | src/initiator.cpp:309-332 | starts a session from exactly the chosen names, in order, with one RPC each, or throws exactly when the schema is not feasible |
| Sessions.MultiSignSession.OnUnavailableSigner | src/initiator.cpp:334-353 | takes exactly the loss step: failure, or a new list and its new RPCs |
| Sessions.MultiSignSession.OnPiece | src/initiator.cpp:240-264 | stores the piece, and on equal sizes aggregates and reports the current list |
| Sessions.MultiSignSession.Dispatch | src/initiator.cpp:182-306 | every callback takes exactly the step of its event |
| SharedSessions.ResetsAreClears | include/ndnmps/schema.hpp:169-172 | a session sees a reset only if somebody cleared the cache |
| Replacement.ReplacePassesIff | src/schema.cpp:295-339 | the new list passes if and only if the capped total after the required repair plus the gain of the single optional key reaches the threshold |
| Replacement.OptionalRoleFallsShortIff | src/schema.cpp:324-339 | the same in terms of the remaining and the available names alone, for a lost key without a required role |
| Replacement.OneRoleOneShort | src/schema.cpp:205-221 | a passing list without a key that serves at most one optional pattern is at most one short |
| Replacement.RequiredFailsIff | src/schema.cpp:309-323 | the required repair gives up if and only if a pattern matching the lost key cannot be filled from kept and available names |
| Replacement.RequiredRefilled | src/schema.cpp:309-323 | a pattern the old list filled is filled again although each pattern gets at most one new key and one key may serve several |
| Replacement.GainIsExact | src/schema.cpp:207-216 | one more name raises the capped total by the number of patterns that match it and have room |
| Additions.RequiredStepByStep | src/schema.cpp:309-323 | the required repair succeeds with a set if and only if those steps lead to it |
| Additions.OptionalChoiceIff | src/schema.cpp:324-336 | the optional repair adds a key if and only if it is the first unlisted match of the first optional pattern with room and a further name |
| Patterns.Pattern.Match | src/schema.cpp:84-96 | matches exactly the names of the same length that agree in value at every literal position |
| Patterns.Parse | src/schema.cpp:41-76 | the parser returns the specified pattern, and throws exactly on texts without a slash |
| Patterns.JoinSplit | src/schema.cpp:56-75 | the components read are exactly the text between the slashes |
| Patterns.StoiReads | src/schema.cpp:49-55 | blanks, a sign, digits and junk: the number of the digits, or none without digits or out of the int range |
| Patterns.ParseMarked | src/schema.cpp:41-76 | with an x before the first slash the multiplicity is the number read before it, one when there is none, and the text between x and slash is ignored |
| Patterns.ParsedIff | src/schema.cpp:44-47 | parsing throws exactly on texts without a slash |
| Schemas.PassSchema | src/schema.cpp:190-221 | decides the counting condition on a list of names |
| Schemas.PassesMono | src/schema.cpp:190-221 | adding signers anywhere never turns acceptance into rejection; equal multisets get equal verdicts |
| Schemas.CountIsPositions | src/schema.cpp:192-204 | the count of a pattern is the number of matching positions of the list |
| Container.MultipartySchemaContainer.PassSchema | src/schema.cpp:223-237 | rejects untrusted names, then the first matching rule decides |
| Container.MultipartySchemaContainer.GetMatchedKeys | src/schema.cpp:341-351 | the trusted, available names that match, in order |
| Container.MultipartySchemaContainer.FindANewKeyForPattern | src/schema.cpp:353-373 | reports a filled pattern, the first matching available key not listed yet, or that there is none |
| Container.MultipartySchemaContainer.TakeOptional | src/schema.cpp:253-269 | takes the first matches as far as the threshold needs them, or fails for want of keys |
| Container.MultipartySchemaContainer.AggregateKey | src/schema.cpp:273-293 | throws if and only if some name is untrusted, otherwise the sum of the listed keys |
| Container.MultipartySchemaContainer.ReplaceSigner | src/schema.cpp:295-339 | marks the lost key and computes the replacement, which ReplaceStepByStep describes |
| Container.EqualListsAgree | include/ndnmps/mps-signer-list.hpp:63-70 | lists equal as multisets get the same verdict and the same aggregate key |
| Bls.AggregatePublicKey | src/bls-helpers.cpp:186-194 | the sum of the keys |
| Bls.VerifyUnderKeys | src/bls-helpers.cpp:150-158 | verification under the sum of the keys |
| Bls.SumPermutation | src/bls-helpers.cpp:196-218 | the sum does not depend on the order |
| Bls.MulIsProduct | src/bls-helpers.cpp:134-158 | a signature is the product of secret and hash modulo the group order |
| Bls.SumOfParts | src/bls-helpers.cpp:186-218 | one value is its own sum, and concatenated lists add up modulo the order |
| SignerLists.MpsSignerList.WireEncode | src/mps-signer-list.cpp:23-32 | the list block with one name element per signer |
| SignerLists.MpsSignerList.WireDecode | src/mps-signer-list.cpp:45-56 | what the list holds after decoding, also where decoding throws |
| SignerLists.SortedUnique | include/ndnmps/mps-signer-list.hpp:63-70 | sorted copies are equal exactly when the multisets are |
| SignerLists.EncodingIsShortest | src/mps-signer-list.cpp:23-32 | type and length numbers are encoded in the shortest form that decodes to them |
| SignerLists.DecodeListIff | src/mps-signer-list.cpp:45-56 | decoding accepts exactly a list block all of whose elements are names, and gives them in order |
| SignerLists.MpsSignerList.Equals | include/ndnmps/mps-signer-list.hpp:63-70 | true if and only if the lists are equal as multisets; for duplicate-free lists, as sets |
| SignRequests.OnSignRequest | src/signer.cpp:168-231 | a refused request leaves no record, any other a fresh one in Processing at version 0; every ack has the status Processing, and the initiator can read exactly those of accepted requests, which name the result |
| SignRequests.SignRequestState.GenerateResultData | src/signer.cpp:80-110 | the reply for the current code, the new version, and the cancelled prefix |
| SignRequests.SignRequestState.OnResultInterest | src/signer.cpp:213-225 | replies exactly to well-named polls while the prefix is registered |
| SignRequests.SignRequestState.OnParameterData | src/signer.cpp:242-275 | the four outcomes of a fetched parameter packet |
| SignRequests.SignRequestState.OnFetchFailed | src/signer.cpp:276-285 | nack and timeout end the fetch with a failed dependency |
| Verifiers.PublishedReadBack | src/initiator.cpp:257-258 | the published content is read back as the same list |
| Verifiers.PublishedAmongOthers | src/verifier.cpp:34-50 | the list is found among other elements of the content, the first if several |
| EndToEnd.ServedIsSigned | src/signer.cpp:265-269 | a piece served by a signer whose authentic packets carry the message is its signature on the message |
| Container.OneRuleDecides | src/schema.cpp:231-235 | the two readings agree where at most one rule matches the packet name |
| SignRequests.AckedPollsAreWellNamed | src/signer.cpp:205-222 | polls of the acked name pass the result filter and the length check |
| Schemas.FeasibleIsSatisfies | src/schema.cpp:239-271 | some duplicate-free list of available names passes if and only if all of them together satisfy the schema |
| Container.MultipartySchemaContainer.ResetCachedUnavailableSigners | include/ndnmps/schema.hpp:169-172 | every trusted name is available again |
| Container.AcceptedListAggregates | src/schema.cpp:223-293 | after acceptance of a non-empty list aggregating its keys never throws |
| SignerLists.PinnedOctets | tests/unit-tests/mps-signer-list.t.cpp:21-44 | the octets fixed by the unit tests |
| Names.NameOrder | src/schema.cpp:242 | the order that `std::set<Name>` iterates in is total and strict |
| Names.ToVector | src/schema.cpp:270 | copying a set of names into a vector gives the one ascending enumeration |
| Bls.AggregateSignature | src/bls-helpers.cpp:196-218 | the sum of the signatures |
| Patterns.ParsePlain | src/schema.cpp:48-56 | without a count before the first slash the multiplicity is one |

## Left out

- OpenSSL and transport: ECDH, HKDF, AES-GCM and HMAC appear as one bit (the HMAC verifies or not) and an optional decrypted packet; faces, scheduling, prefix registration and promises appear as events in any order, cancelling a prefix takes effect at once, and a callback that throws just ends its RPC unreported.
- Curve arithmetic, pairings, serialization of keys and signatures, and proofs of possession: keys and signatures are scalars and the message hash is an arbitrary function; `AggregateVerifiesIff` takes as a hypothesis that the hashed message is not annihilated by a nonzero scalar.
- Honest signers: a piece is assumed to come from the signer asked (`EndToEnd.PiecesServed`), whose registered key belongs to its secret; the initiator itself checks no piece.
- Empty trusted names: the code uses the empty name for "no replacement needed", so `ReplaceFailsIff`, `ReplaceFailsOnlyIfInfeasible`, `ReplaceMaximal`, `ReplaceKeepsPassing` and the run theorems built on them ask that no trusted name is empty.
- ndn-cxx itself is not part of this model: number and block encoding follow the NDN Packet Format Specification v0.3, section "Variable Size Encoding for Type (T) and Length (L)", and its checks on individual components of a decoded name are not modelled.
- Sizes are unbounded numbers: overflow of `size_t` sums of counts is not modelled, only the wrap-around of a negative multiplicity.
- Reading schemas from JSON or INFO and writing them with `toString`, certificates, `asyncVerify`, interest signing, the salt, public key and timing in acks, the renewed result name in a 102 reply, and logging.
- Minimality of the list from `getAvailableSigners`: with at-least-num 0 the loop still adds an optional key.
- ReplaceKeepsPassing: for lists at most one short without the lost key; for all others the exact verdict is `ReplaceFallsShortIff`.
- MultiSignSession: RPCs are records in a list rather than heap objects shared by closures, so aliasing of per-signer state is not captured.
- The files under `temp/` are not built and are not modelled.
