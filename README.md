# nucypher policy enactment — a Dafny model

This project models the decision and arithmetic logic of `nucypher/policy/policies.py`:
how Alice enacts a re-encryption policy with `n` Ursulas (the network's worker nodes) and
publishes its treasure map.

- **Fees** (`fees.dfy`): `BlockchainPolicy.generate_policy_parameters` and
  `_validate_fee_value`. `value` and `rate` are optional integers with Python's truthiness,
  so the quirks stay: a zero `value` or `rate` passes the "exactly one of them" check, and a
  supplied `rate` is replaced by one computed from `value`. A division by a zero `n` or
  period count is Python's `ZeroDivisionError`, a separate error here.
- **Arrangement** (`arrangement.dfy`): `Arrangement.__bytes__` / `from_bytes`, proved to be a
  round trip in both directions.
- **Publication** (`publication.dfy`): the quorum `ceil(total * percent / 100)` and
  `TreasureMapPublisher` as a class. Its worker pool is replaced by what the pool records.
  This is a map from node to HTTP status for completed deliveries and a set of unreachable
  nodes. Both only grow. `block_until_success_is_reasonably_likely` checks the completed
  statuses: all 201 publishes, any 402 is `Unpaid`, anything else is `EnactmentError`.
- **Policies** (`policies.dfy`): the federated/blockchain split as a tag, `PolicyKind`, with a
  table of behaviours:
  - the "not enough Ursulas" exception;
  - the enactment payload;
  - the `create_policy` enactment hook.

  It also holds `_propose_arrangement`, `_make_arrangements` (from the snapshot of successes
  taken when `block_until_target_successes` returned or raised), the `Policy` and `EnactedPolicy` records and `enact` as a method.
- `wrappers.dfy`, `network.dfy` and `arith.dfy` hold the result types, the wire values and the
  division facts used by the proofs.

Collaborators outside this file are function-valued parameters of the model. These are
the network middleware, signature verification, `derive_hrac`, `construct_policy_id`,
treasure-map construction and encryption, and the on-chain transaction.

Two details of the code are kept as written:
- the "not enough Ursulas" exceptions are raised without the accepted and rejected address
  lists; those lists are only logged (policies.py:334-339);
- a proposal is accepted only on status 200 (policies.py:269), and a delivery counts as
  accepted only on status 201 (policies.py:136).

## Model

| member | source | states |
|---|---|---|
| Fees.FloorDiv | nucypher/policy/policies.py:472 | Python's `//`: the quotient is the floor of `a / b` for either sign of the divisor |
| Fees.GeneratePolicyParameters | nucypher/policy/policies.py:480-511 | a success has passed the sign and exclusivity checks and returns a given `value` unchanged; a division by zero happens only when `value` is given and `n` or the period count is zero |
| Fees.ValidateFeeValue | nucypher/policy/policies.py:471-477 | it divides by zero exactly when `n` or the period count is zero; otherwise it either passes or raises the plain value error |
| Fees.NegativeParametersRejected | nucypher/policy/policies.py:485-487 | `InvalidPolicyValue` for a negative parameter is raised exactly when one of `n`, `payment_periods`, `value`, `rate` that is present is negative |
| Fees.ExactlyOneFeeRequired | nucypher/policy/policies.py:489-493 | with no negative input, the request is refused exactly when `value` and `rate` are both missing or both given and non-zero (a zero one always passes) |
| Fees.ParametersConsistent | nucypher/policy/policies.py:495-511 | every successful result has `value == rate * payment_periods * n` with both non-negative |
| Fees.RateGivesValue | nucypher/policy/policies.py:495-496 | given only `rate`, the result is `rate` and `rate * payment_periods * n` |
| Fees.RateRoundTrip | nucypher/policy/policies.py:495-508 | feeding the derived value back with `n, payment_periods > 0` returns the same rate with no error |
| Fees.ValueOverridesRate | nucypher/policy/policies.py:489-510 | when `value` is given, a `rate` that passed the check does not affect the result |
| Fees.ValueMustSplitEvenly | nucypher/policy/policies.py:498-508 | a given value is refused as not divisible by `n` exactly when `value % n != 0`, and accepted exactly when `n * payment_periods` divides it |
| Fees.ValidateAcceptsExactMultiples | nucypher/policy/policies.py:471-477 | for positive `n` and period count the recomputation check passes exactly on multiples of `n * payment_periods`, negative values included |
| Fees.ValidateDividesByZero | nucypher/policy/policies.py:472 | a zero `n` or period count raises a division by zero |
| Fees.GenerateAgreesWithValidate | nucypher/policy/policies.py:471-508 | the two-step divisibility checks and the recomputation check accept the same values |
| Fees.GeneratedParametersValidate | nucypher/policy/policies.py:466-511 | parameters that `generate_policy_parameters` returns pass `_validate_fee_value` |
| Fees.ZeroCountRateOnlyFailsValidation | nucypher/policy/policies.py:495-496 | given only a rate, a zero `n` or period count is accepted with value 0, and `_validate_fee_value` then divides by zero (line 472) |
| Arrangements.ToBytes | nucypher/policy/policies.py:61-62 | the encoding of a well-formed arrangement is `KEY_LENGTH + 4 + |expiration|` bytes long; Arrangements.RoundTrip proves FromBytes inverts it |
| Arrangements.FromBytes | nucypher/policy/policies.py:70-73 | whatever parses is a well-formed arrangement |
| Arrangements.RoundTrip | nucypher/policy/policies.py:61-73 | parsing the bytes of a well-formed arrangement gives it back |
| Arrangements.Canonical | nucypher/policy/policies.py:70-73 | bytes that parse re-serialize to exactly the same bytes |
| Publication.Quorum | nucypher/policy/policies.py:91-92 | the quorum is the ceiling of `total * percent / 100`: the least `q` with `100 * q >= total * percent` |
| Publication.QuorumWithinTotal | nucypher/policy/policies.py:92 | for `0 <= percent <= 100` the quorum lies in `0..total` |
| Publication.DefaultQuorumOfTwenty | nucypher/policy/policies.py:87-92 | the default 5% of 20 nodes is 1 |
| Publication.CheckStatuses | nucypher/policy/policies.py:134-149 | the check never reports `OutOfValues`; it publishes the responses it was given, and an `EnactmentError` reports exactly those responses |
| Publication.AllCreatedPublishes | nucypher/policy/policies.py:134-149 | the completed map is returned unchanged exactly when every status is 201 |
| Publication.UnpaidTakesPrecedence | nucypher/policy/policies.py:140-144 | `Unpaid` is raised exactly when some status is 402, whatever the others are |
| Publication.EnactmentErrorReportsEveryAddress | nucypher/policy/policies.py:136-147 | `EnactmentError` is raised exactly when some status is not 201 and none is 402; its report has every contacted address with its status |
| Publication.UnpaidPersists | nucypher/policy/policies.py:134-144 | as the successes only grow, a check that raised `Unpaid` raises it on every later snapshot |
| Publication.PublishedOnEarlierSnapshots | nucypher/policy/policies.py:134-136 | a check that publishes would have published on every earlier snapshot |
| Publication.TreasureMapPublisher.constructor | nucypher/policy/policies.py:83-113 | `_total` is the node count, the target is the quorum, and nothing is recorded yet |
| Publication.TreasureMapPublisher.Start | nucypher/policy/policies.py:120-124 | starting records nothing and marks the pool started |
| Publication.TreasureMapPublisher.RecordDelivery | nucypher/policy/policies.py:94-106 | a delivery that got a response adds its node and status to the successes, keeping every earlier entry |
| Publication.TreasureMapPublisher.RecordUnreachable | nucypher/policy/policies.py:94-100 | a delivery that raised adds its node to the failures |
| Publication.TreasureMapPublisher.Completed | nucypher/policy/policies.py:115-118 | the completed deliveries are to target nodes and none of them is also a recorded failure |
| Publication.TreasureMapPublisher.BlockUntilSuccessIsReasonablyLikely | nucypher/policy/policies.py:126-149 | once the quorum has completed, the result is the status check on the completed deliveries; if it publishes, it returns at least a quorum of them; if the nodes run out first, `OutOfValues` |
| Policies.NewPolicy | nucypher/policy/policies.py:194-236 | `n` is the number of key fragments; id and hrac come from the label and the keys through the derivation functions |
| Policies.NewBlockchainPolicy | nucypher/policy/policies.py:453-466 | a blockchain policy is built exactly when `_validate_fee_value` passes, and otherwise fails with its error |
| Policies.GeneratedParametersMakeAPolicy | nucypher/policy/policies.py:453-511 | parameters from `generate_policy_parameters` always build a blockchain policy |
| Policies.NotEnoughUrsulasException | nucypher/policy/policies.py:431-469 | both variants raise a `NotEnoughUrsulas`; it is `NotEnoughBlockchainUrsulas` exactly for blockchain policies |
| Policies.EnactmentPayload | nucypher/policy/policies.py:535-536 | the payload is the hrac prefix (empty for federated policies, lines 438-439) followed by the key fragment, which can be read back from it |
| Policies.PayloadLayout | nucypher/policy/policies.py:535-536 | a blockchain payload is the hrac truncated to `ID_LENGTH` followed by the key fragment, of length `min(|hrac|, 16) + |kfrag|`; a federated payload is the key fragment (lines 438-439) |
| Policies.PayloadRoundTrip | nucypher/policy/policies.py:535-536 | stripping the hrac prefix from a payload recovers the key fragment |
| Policies.EnactmentTransaction | nucypher/policy/policies.py:519-539 | only blockchain policies transact; the transaction carries the hrac as policy id, the policy value and exactly the accepted nodes' addresses |
| Policies.ArrangementOf | nucypher/policy/policies.py:64-67 | the arrangement is serializable exactly when the publisher key and the expiration fit the layout, and then a node parsing its bytes gets it back |
| Policies.ProposeArrangement | nucypher/policy/policies.py:251-286 | an unknown address fails with `UnknownNode`; an accepted proposal carries the known node and the policy's arrangement; `Unreachable` means the middleware call raised |
| Policies.ProposalAcceptedOnlyOn200 | nucypher/policy/policies.py:251-286 | a proposal is accepted exactly when the address is known, the node answers 200 and its signature over the arrangement's bytes verifies; any other status is a rejection |
| Policies.UnknownAddressFailsBeforeContact | nucypher/policy/policies.py:259-260 | an unknown address fails with the same error whatever the network would answer, so no node is contacted |
| Policies.Successes | nucypher/policy/policies.py:317-325 | the pool's successes are exactly the accepted outcomes |
| Policies.AcceptedArrangements | nucypher/policy/policies.py:327 | the dictionary has one entry per accepted node, mapping it to its arrangement |
| Policies.AcceptedArrangementsCount | nucypher/policy/policies.py:327-332 | the dictionary has as many entries as there were accepted proposals |
| Policies.MakeArrangements | nucypher/policy/policies.py:288-345 | a failure is the variant's "not enough Ursulas" exception; a success maps every accepted node, and only those, to its arrangement |
| Policies.NotEnoughExactlyWhenFewerAccepted | nucypher/policy/policies.py:327-345 | the variant's exception is raised exactly when fewer than `n` proposals were accepted; otherwise at least `n` arrangements are returned |
| Policies.ArrangementsComeFromAcceptedProposals | nucypher/policy/policies.py:305-345 | every returned arrangement belongs to a known node that answered 200 and signed it |
| Policies.PublishTreasureMap | nucypher/policy/policies.py:574-575 | publishing starts the publisher with nothing recorded yet |
| Policies.Enact | nucypher/policy/policies.py:364-411 | enactment fails with the variant's exception when too few accepted, or when the blockchain transaction fails; otherwise the enacted policy carries the policy's id, hrac, label, threshold, public key, publisher verifying key and encrypted map, and a fresh publisher over the target nodes, started exactly when publication was requested |

## Left out

- The worker pools, `PrefetchStrategy`, `AllAtOnceFactory` and the reservoirs (lines 37-43, 108-113, 303-325): their point is thread-pool concurrency, timeouts and staggering, and their source is not part of this model. The publisher's pool is the growing outcome record of `TreasureMapPublisher`; the proposal pool is the snapshot of its successes taken when `block_until_target_successes` returned or raised (lines 318 and 322), given to `MakeArrangements` and `Enact`. `cancel()` and `join()` are opaque.
- `_make_reservoir` for both variants and the known-node waits (`block_until_number_of_known_nodes_is`, the learning-loop restart in `enact`): these are peer discovery and staking queries.
- `block_until_complete` and the `reactor.callInThread` background continuation (lines 120-124, 151-152): these belong to the Twisted reactor. All logging is left out too.
- Publication.TreasureMapPublisher.BlockUntilSuccessIsReasonablyLikely: does not model the pool's `TimedOut`, because it depends on a clock. Its precondition stands for the blocking wait. The code takes two snapshots of the successes (lines 130 and 134); a sequential model cannot tell them apart.
- Publication.TreasureMapPublisher.Start: requires that the pool was not started before, because the double-start error belongs to the worker pool, which is not modelled.
- Fees.GeneratedParametersValidate: requires positive `n` and period count. With only a rate and a zero `n` or period count, `generate_policy_parameters` succeeds with value 0 but the constructor raises `ZeroDivisionError` (Fees.ZeroCountRateOnlyFailsValidation).
- Policies.GeneratedParametersMakeAPolicy: requires a positive kfrag count and period count, for the same reason as Fees.GeneratedParametersValidate.
- Publication.Quorum: uses exact integer ceiling instead of the floating-point `math.ceil(... / 100)`.
- Policies.ProposeArrangement: requires a well-formed arrangement (a 33-byte key and an expiration shorter than 2^32 bytes), as a `PublicKey` and an ISO-8601 timestamp always are.
- The Arrangement byte layout: the key splitter and `VariableLengthBytestring` are not part of this model, so the key is taken as 33 bytes and the length prefix as 4 big-endian bytes. The expiration is kept as its encoded bytes; `maya` ISO-8601 formatting and parsing are left out.
- `Enact`: the treasure map's construction and encryption are one opaque function of the accepted arrangements. The order of `list(arrangements)` and of the transaction's node addresses is not modelled (a set is used). The revocation kit and `EnactedPolicy.n = len(revocation_kit)` are left out, because `RevocationKit` is opaque. `treasure_map.m` is taken to be the policy's `m`. `_make_publisher`'s target nodes (`bob.matching_nodes_among`) are a parameter.
- The transaction receipt of `_publish_to_blockchain` is not modelled, only whether the transaction raised. Its `end_timestamp` (the expiration's epoch, computed by `maya`) is kept as the expiration's opaque bytes.
- The exceptions `Unknown`, `Inactive`, `Expired`, `Unauthorized` and `Revoked` are declared in this file but raised elsewhere.
- `nucypher/utilities/networking.py` (HTTP requests, random sampling and external-IP discovery) and `tests/acceptance/utilities/test_prometheus_collectors.py` (metrics export tests): there is no logic in them to model.
