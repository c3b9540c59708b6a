/**
  `Policy` and its two variants. The class hierarchy becomes a tag, `PolicyKind`, with a small
  table of variant behaviours: the "not enough Ursulas" exception, the enactment payload and
  the enactment hook. Calls into collaborators that are not part of this model (the network
  middleware, signature verification, hrac and policy-id derivation, treasure map
  construction and encryption, the on-chain transaction) are function-valued parameters.
*/
module Policies {
  import opened Wrappers
  import opened Network
  import opened Arrangements
  import opened Fees
  import opened Publication

  /** `Policy.ID_LENGTH`, the width of the on-chain `bytes16` policy id. */
  const ID_LENGTH: nat := 16

  /** Federated policies are free; blockchain policies carry their fee parameters. */
  datatype PolicyKind =
    | Federated
    | Blockchain(value: int, rate: int, paymentPeriods: int)

  datatype Policy = Policy(
    kind: PolicyKind,
    publisherVerifyingKey: Bytes,
    bobVerifyingKey: Bytes,
    policyLabel: Bytes,
    expiration: Bytes,
    kfrags: seq<Bytes>,
    publicKey: Bytes,
    m: int,
    id: Bytes,
    hrac: Bytes)
  {
    /** `self.n = len(kfrags)` */
    function N(): nat
    {
      |kfrags|
    }
  }

  /** The policy exceptions raised while enacting. */
  datatype PolicyError =
    | NotEnoughUrsulas
      /** A subclass of `NotEnoughUrsulas`. */
    | NotEnoughBlockchainUrsulas
      /** The `create_policy` transaction raised. */
    | TransactionFailed

  /** What `except Policy.NotEnoughUrsulas` catches. */
  predicate IsNotEnoughUrsulas(e: PolicyError)
  {
    e.NotEnoughUrsulas? || e.NotEnoughBlockchainUrsulas?
  }

  // ---------------------------------------------------------------------------
  // Construction

  /**
    `Policy.__init__`: `derive_hrac` hashes the publisher's key, Bob's key and the label;
    `construct_policy_id` hashes the label and Bob's stamp.
  */
  function NewPolicy(
    kind: PolicyKind, publisherVerifyingKey: Bytes, bobVerifyingKey: Bytes, policyLabel: Bytes,
    expiration: Bytes, kfrags: seq<Bytes>, publicKey: Bytes, m: int,
    constructPolicyId: (Bytes, Bytes) -> Bytes, deriveHrac: (Bytes, Bytes, Bytes) -> Bytes): (p: Policy)
    ensures p.N() == |kfrags| && p.kind == kind
    ensures p.id == constructPolicyId(policyLabel, bobVerifyingKey)
    ensures p.hrac == deriveHrac(publisherVerifyingKey, bobVerifyingKey, policyLabel)
  {
    Policy(kind, publisherVerifyingKey, bobVerifyingKey, policyLabel, expiration, kfrags, publicKey, m,
           constructPolicyId(policyLabel, bobVerifyingKey), deriveHrac(publisherVerifyingKey, bobVerifyingKey, policyLabel))
  }

  /** `BlockchainPolicy.__init__`: the base constructor followed by `_validate_fee_value`. */
  function NewBlockchainPolicy(
    value: int, rate: int, paymentPeriods: int,
    publisherVerifyingKey: Bytes, bobVerifyingKey: Bytes, policyLabel: Bytes,
    expiration: Bytes, kfrags: seq<Bytes>, publicKey: Bytes, m: int,
    constructPolicyId: (Bytes, Bytes) -> Bytes, deriveHrac: (Bytes, Bytes, Bytes) -> Bytes): (r: Result<Policy, FeeError>)
    ensures r.Ok? <==> ValidateFeeValue(value, |kfrags|, paymentPeriods) == Pass
    ensures r.Err? ==> r.error == ValidateFeeValue(value, |kfrags|, paymentPeriods).error
    ensures r.Ok? ==> r.value.kind == Blockchain(value, rate, paymentPeriods) && r.value.N() == |kfrags|
  {
    var policy := NewPolicy(Blockchain(value, rate, paymentPeriods), publisherVerifyingKey, bobVerifyingKey,
                            policyLabel, expiration, kfrags, publicKey, m, constructPolicyId, deriveHrac);
    match ValidateFeeValue(value, |kfrags|, paymentPeriods)
    case Pass => Ok(policy)
    case Fail(e) => Err(e)
  }

  /** Parameters from `generate_policy_parameters` are accepted by the blockchain policy constructor. */
  lemma GeneratedParametersMakeAPolicy(
    paymentPeriods: int, value: Option<int>, rate: Option<int>,
    publisherVerifyingKey: Bytes, bobVerifyingKey: Bytes, policyLabel: Bytes,
    expiration: Bytes, kfrags: seq<Bytes>, publicKey: Bytes, m: int,
    constructPolicyId: (Bytes, Bytes) -> Bytes, deriveHrac: (Bytes, Bytes, Bytes) -> Bytes)
    requires |kfrags| > 0 && paymentPeriods > 0
    requires GeneratePolicyParameters(|kfrags|, paymentPeriods, value, rate).Ok?
    ensures var p := GeneratePolicyParameters(|kfrags|, paymentPeriods, value, rate).value;
      NewBlockchainPolicy(p.value, p.rate, paymentPeriods, publisherVerifyingKey, bobVerifyingKey, policyLabel,
                          expiration, kfrags, publicKey, m, constructPolicyId, deriveHrac).Ok?
  {
    GeneratedParametersValidate(|kfrags|, paymentPeriods, value, rate);
  }

  // ---------------------------------------------------------------------------
  // The variant table

  /** `_not_enough_ursulas_exception` */
  function NotEnoughUrsulasException(kind: PolicyKind): (e: PolicyError)
    ensures IsNotEnoughUrsulas(e)
    ensures e.NotEnoughBlockchainUrsulas? <==> kind.Blockchain?
  {
    match kind
    case Federated => NotEnoughUrsulas
    case Blockchain(_, _, _) => NotEnoughBlockchainUrsulas
  }

  function Min(a: nat, b: nat): nat
  {
    if a <= b then a else b
  }

  /** How many bytes of the hrac lead a payload: `bytes(hrac)[:ID_LENGTH]` for blockchain policies. */
  function HracPrefixLength(policy: Policy): nat
  {
    if policy.kind.Blockchain? then Min(|policy.hrac|, ID_LENGTH) else 0
  }

  /** `_make_enactment_payload` */
  function EnactmentPayload(policy: Policy, kfrag: Bytes): (payload: Bytes)
    ensures |payload| == HracPrefixLength(policy) + |kfrag|
    ensures payload[HracPrefixLength(policy)..] == kfrag
  {
    match policy.kind
    case Federated => kfrag
    case Blockchain(_, _, _) => policy.hrac[..Min(|policy.hrac|, ID_LENGTH)] + kfrag
  }

  /** Federated payloads are the key fragment's bytes; blockchain payloads are the truncated hrac followed by them. */
  lemma PayloadLayout(policy: Policy, kfrag: Bytes)
    ensures var payload := EnactmentPayload(policy, kfrag);
      var k := HracPrefixLength(policy);
      && |payload| == k + |kfrag|
      && payload[..k] == policy.hrac[..k]
      && payload[k..] == kfrag
    ensures policy.kind.Federated? ==> EnactmentPayload(policy, kfrag) == kfrag
    ensures policy.kind.Blockchain? ==> HracPrefixLength(policy) == Min(|policy.hrac|, ID_LENGTH)
  {
  }

  /** The receiving side: strip the hrac prefix of a payload. */
  function KfragOfPayload(policy: Policy, payload: Bytes): Bytes
  {
    var k := HracPrefixLength(policy);
    if |payload| < k then [] else payload[k..]
  }

  /** The key fragment can be recovered from its payload. */
  lemma PayloadRoundTrip(policy: Policy, kfrag: Bytes)
    ensures KfragOfPayload(policy, EnactmentPayload(policy, kfrag)) == kfrag
  {
    PayloadLayout(policy, kfrag);
  }

  /** The `create_policy` transaction sent by `_publish_to_blockchain`. */
  datatype CreatePolicyCall = CreatePolicyCall(
    policyId: Bytes, value: int, expiration: Bytes, nodeAddresses: set<Address>)

  /** `_enact_arrangements`: nothing for a federated policy, an on-chain transaction for a blockchain one. */
  function EnactmentTransaction(policy: Policy, arrangements: map<Ursula, Arrangement>): (t: Option<CreatePolicyCall>)
    ensures t.Some? <==> policy.kind.Blockchain?
    ensures t.Some? ==> t.value.policyId == policy.hrac && t.value.value == policy.kind.value
    ensures t.Some? ==> forall u | u in arrangements :: u.checksumAddress in t.value.nodeAddresses
    ensures t.Some? ==> forall a | a in t.value.nodeAddresses :: exists u | u in arrangements :: u.checksumAddress == a
  {
    match policy.kind
    case Federated => None
    case Blockchain(value, _, _) =>
      Some(CreatePolicyCall(policy.hrac, value, policy.expiration,
                            set u | u in arrangements :: u.checksumAddress))
  }

  // ---------------------------------------------------------------------------
  // Proposing arrangements

  /**
    `Arrangement.from_publisher`: every proposal of a policy carries the same arrangement, and
    a node parsing what was sent gets that arrangement back.
  */
  function ArrangementOf(policy: Policy): (a: Arrangement)
    ensures WellFormed(a) <==>
      |policy.publisherVerifyingKey| == KEY_LENGTH && |policy.expiration| < MAX_FIELD_LENGTH
    ensures WellFormed(a) ==> FromBytes(ToBytes(a)) == Ok(a)
  {
    var a := Arrangement(policy.publisherVerifyingKey, policy.expiration);
    if WellFormed(a) then RoundTrip(a); a else a
  }

  datatype Acceptance = Acceptance(ursula: Ursula, arrangement: Arrangement)

  /** Why a single proposal failed. */
  datatype ProposalError =
    | UnknownNode(address: Address)
      /** `propose_arrangement` raised: no response came back. */
    | Unreachable
    | ProposalRejected(status: int)
    | InvalidSignature

  type ProposalOutcome = Result<Acceptance, ProposalError>

  /** The middleware's `propose_arrangement`: `None` when the call raises. */
  type ProposeCall = (Ursula, Arrangement) -> Option<Response>

  /** `verify_from` of the node's signature over a message: false when it raises. */
  type VerifyCall = (Ursula, Bytes, Bytes) -> bool

  /** The proposal got a response with status 200 whose content is the node's valid signature. */
  predicate SignedAcceptance(policy: Policy, ursula: Ursula, propose: ProposeCall, verify: VerifyCall)
    requires WellFormed(ArrangementOf(policy))
  {
    var response := propose(ursula, ArrangementOf(policy));
    && response.Some?
    && response.value.statusCode == OK
    && verify(ursula, ToBytes(ArrangementOf(policy)), response.value.content)
  }

  /**
    `_propose_arrangement`: an address not among the known nodes fails before anything is
    sent; otherwise the arrangement is proposed and accepted only on status 200 with a
    valid signature of the node over the arrangement's bytes.
  */
  function ProposeArrangement(
    policy: Policy, address: Address, knownNodes: map<Address, Ursula>,
    propose: ProposeCall, verify: VerifyCall): (r: ProposalOutcome)
    requires WellFormed(ArrangementOf(policy))
    ensures address !in knownNodes ==> r == Err(UnknownNode(address))
    ensures r.Ok? ==> address in knownNodes && r.value == Acceptance(knownNodes[address], ArrangementOf(policy))
    ensures r == Err(Unreachable) ==> address in knownNodes && propose(knownNodes[address], ArrangementOf(policy)).None?
  {
    if address !in knownNodes then Err(UnknownNode(address))
    else
      var ursula := knownNodes[address];
      var arrangement := ArrangementOf(policy);
      match propose(ursula, arrangement)
      case None => Err(Unreachable)
      case Some(response) =>
        if response.statusCode == OK then
          if verify(ursula, ToBytes(arrangement), response.content) then Ok(Acceptance(ursula, arrangement))
          else Err(InvalidSignature)
        else Err(ProposalRejected(response.statusCode))
  }

  /** A proposal is accepted exactly when the node is known, answers 200 and signed the arrangement. */
  lemma ProposalAcceptedOnlyOn200(
    policy: Policy, address: Address, knownNodes: map<Address, Ursula>,
    propose: ProposeCall, verify: VerifyCall)
    requires WellFormed(ArrangementOf(policy))
    ensures var r := ProposeArrangement(policy, address, knownNodes, propose, verify);
      && (r.Ok? <==> address in knownNodes && SignedAcceptance(policy, knownNodes[address], propose, verify))
      && (r.Err? && r.error.ProposalRejected? ==> r.error.status != OK)
  {
  }

  /** An unknown address fails the same way whatever the network and the verifier would do: no node is contacted. */
  lemma UnknownAddressFailsBeforeContact(
    policy: Policy, address: Address, knownNodes: map<Address, Ursula>,
    propose: ProposeCall, verify: VerifyCall, propose': ProposeCall, verify': VerifyCall)
    requires WellFormed(ArrangementOf(policy))
    ensures address !in knownNodes <==>
      ProposeArrangement(policy, address, knownNodes, propose, verify) == Err(UnknownNode(address))
    ensures address !in knownNodes ==>
      ProposeArrangement(policy, address, knownNodes, propose, verify)
      == ProposeArrangement(policy, address, knownNodes, propose', verify')
  {
  }

  /** The proposal pool's successes: each address whose proposal was accepted, with its acceptance. */
  function Successes(outcomes: map<Address, ProposalOutcome>): (s: map<Address, Acceptance>)
    ensures forall a | a in s :: a in outcomes && outcomes[a] == Ok(s[a])
    ensures forall a | a in outcomes && outcomes[a].Ok? :: a in s
  {
    map a | a in outcomes && outcomes[a].Ok? :: outcomes[a].value
  }

  /** Each success names the node at the address it was recorded under. */
  ghost predicate AcceptedByAddress(successes: map<Address, Acceptance>)
  {
    forall a | a in successes :: successes[a].ursula.checksumAddress == a
  }

  /** `{ursula: arrangement for ursula, arrangement in successes.values()}` */
  function AcceptedArrangements(successes: map<Address, Acceptance>): (accepted: map<Ursula, Arrangement>)
    requires AcceptedByAddress(successes)
    ensures forall a | a in successes :: successes[a].ursula in accepted
    ensures forall u | u in accepted ::
      u.checksumAddress in successes && successes[u.checksumAddress] == Acceptance(u, accepted[u])
  {
    map a | a in successes :: successes[a].ursula := successes[a].arrangement
  }

  /** One accepted arrangement per accepted address. */
  lemma {:induction false} AcceptedArrangementsCount(successes: map<Address, Acceptance>)
    requires AcceptedByAddress(successes)
    ensures |AcceptedArrangements(successes)| == |successes|
    decreases |successes|
  {
    if successes != map[] {
      var a :| a in successes;
      var rest := successes - {a};
      AcceptedArrangementsCount(rest);
      var u := successes[a].ursula;
      assert AcceptedArrangements(successes).Keys == AcceptedArrangements(rest).Keys + {u};
      assert u !in AcceptedArrangements(rest);
    }
  }

  /**
    `_make_arrangements`, given the snapshot of the proposal pool's successes taken when
    `block_until_target_successes` returned or raised: the accepted arrangements are
    returned, or the variant's "not enough Ursulas" exception is raised when fewer than `n`
    were accepted.
  */
  function MakeArrangements(policy: Policy, successes: map<Address, Acceptance>)
    : (r: Result<map<Ursula, Arrangement>, PolicyError>)
    requires AcceptedByAddress(successes)
    ensures r.Err? ==> r.error == NotEnoughUrsulasException(policy.kind)
    ensures r.Ok? ==> forall u | u in r.value ::
      u.checksumAddress in successes && successes[u.checksumAddress] == Acceptance(u, r.value[u])
    ensures r.Ok? ==> forall a | a in successes :: successes[a].ursula in r.value
  {
    var accepted := AcceptedArrangements(successes);
    if |accepted| < policy.N() then Err(NotEnoughUrsulasException(policy.kind))
    else Ok(accepted)
  }

  /** The variant's exception is raised exactly when fewer than `n` proposals were accepted. */
  lemma NotEnoughExactlyWhenFewerAccepted(policy: Policy, successes: map<Address, Acceptance>)
    requires AcceptedByAddress(successes)
    ensures MakeArrangements(policy, successes).Err? <==> |successes| < policy.N()
    ensures MakeArrangements(policy, successes).Err? ==>
      MakeArrangements(policy, successes).error == NotEnoughUrsulasException(policy.kind)
    ensures MakeArrangements(policy, successes).Ok? ==>
      |MakeArrangements(policy, successes).value| == |successes| >= policy.N()
  {
    AcceptedArrangementsCount(successes);
  }

  /**
    When every recorded outcome is the result of proposing to its address, the successes are
    keyed consistently, and every returned arrangement was accepted by a known node that
    answered 200 and signed it.
  */
  lemma ArrangementsComeFromAcceptedProposals(
    policy: Policy, knownNodes: map<Address, Ursula>,
    propose: ProposeCall, verify: VerifyCall,
    outcomes: map<Address, ProposalOutcome>)
    requires WellFormed(ArrangementOf(policy))
    requires KeyedByAddress(knownNodes)
    requires forall a | a in outcomes :: outcomes[a] == ProposeArrangement(policy, a, knownNodes, propose, verify)
    ensures AcceptedByAddress(Successes(outcomes))
    ensures var r := MakeArrangements(policy, Successes(outcomes));
      r.Ok? ==> forall u | u in r.value ::
        && u.checksumAddress in knownNodes && knownNodes[u.checksumAddress] == u
        && r.value[u] == ArrangementOf(policy)
        && SignedAcceptance(policy, u, propose, verify)
  {
    var s := Successes(outcomes);
    forall a | a in s ensures s[a].ursula.checksumAddress == a {
      ProposalAcceptedOnlyOn200(policy, a, knownNodes, propose, verify);
    }
    var r := MakeArrangements(policy, s);
    if r.Ok? {
      forall u | u in r.value
        ensures u.checksumAddress in knownNodes && knownNodes[u.checksumAddress] == u
        ensures r.value[u] == ArrangementOf(policy)
        ensures SignedAcceptance(policy, u, propose, verify)
      {
        ProposalAcceptedOnlyOn200(policy, u.checksumAddress, knownNodes, propose, verify);
      }
    }
  }

  // ---------------------------------------------------------------------------
  // Enactment

  /** `EnactedPolicy`: the outcome of a successful enactment. */
  datatype EnactedPolicy = EnactedPolicy(
    id: Bytes,
    hrac: Bytes,
    policyLabel: Bytes,
    publicKey: Bytes,
    m: int,
    treasureMap: Bytes,
    publisher: TreasureMapPublisher,
    publisherVerifyingKey: Bytes)

  /** `EnactedPolicy.publish_treasure_map` */
  method PublishTreasureMap(enacted: EnactedPolicy)
    requires enacted.publisher.Valid() && !enacted.publisher.started
    modifies enacted.publisher
    ensures enacted.publisher.Valid() && enacted.publisher.started
    ensures enacted.publisher.successes == map[] && enacted.publisher.failures == {}
  {
    enacted.publisher.Start();
  }

  /**
    `Policy.enact`, from the snapshot of the proposal pool's successes onwards: make the arrangements,
    run the variant's enactment hook, build and encrypt the treasure map, make its publisher
    over the target nodes, and start publishing when asked to.
  */
  method Enact(
    policy: Policy, successes: map<Address, Acceptance>,
    submitTransaction: CreatePolicyCall -> bool,
    encryptTreasureMap: map<Ursula, Arrangement> -> Bytes,
    targetNodes: seq<Address>, publishTreasureMap: bool) returns (r: Result<EnactedPolicy, PolicyError>)
    requires AcceptedByAddress(successes)
    ensures MakeArrangements(policy, successes).Err? ==> r == Err(MakeArrangements(policy, successes).error)
    ensures MakeArrangements(policy, successes).Ok? ==>
      var tx := EnactmentTransaction(policy, MakeArrangements(policy, successes).value);
      (r.Err? <==> tx.Some? && !submitTransaction(tx.value))
      && (r.Err? ==> r.error == TransactionFailed)
    ensures r.Ok? ==>
      var e := r.value;
      && fresh(e.publisher) && e.publisher.Valid()
      && e.publisher.nodes == targetNodes
      && e.publisher.quorum == Quorum(|targetNodes|, DEFAULT_PERCENT_TO_COMPLETE)
      && e.publisher.started == publishTreasureMap
      && e.publisher.successes == map[] && e.publisher.failures == {}
      && e.id == policy.id && e.hrac == policy.hrac && e.policyLabel == policy.policyLabel && e.m == policy.m
      && e.publicKey == policy.publicKey && e.publisherVerifyingKey == policy.publisherVerifyingKey
      && e.treasureMap == encryptTreasureMap(MakeArrangements(policy, successes).value)
  {
    var arrangements;
    match MakeArrangements(policy, successes) {
      case Err(error) => return Err(error);
      case Ok(accepted) => arrangements := accepted;
    }
    match EnactmentTransaction(policy, arrangements) {
      case Some(tx) =>
        if !submitTransaction(tx) {
          return Err(TransactionFailed);
        }
      case None =>
    }
    var encryptedMap := encryptTreasureMap(arrangements);
    var publisher := new TreasureMapPublisher(targetNodes, DEFAULT_PERCENT_TO_COMPLETE);
    var enacted := EnactedPolicy(policy.id, policy.hrac, policy.policyLabel, policy.publicKey, policy.m,
                                 encryptedMap, publisher, policy.publisherVerifyingKey);
    if publishTreasureMap {
      PublishTreasureMap(enacted);
    }
    return Ok(enacted);
  }
}
