/**
  `TreasureMapPublisher`: delivers the encrypted treasure map to a fixed list of nodes and
  lets the caller go once a minimum quorum of deliveries has completed. The worker pool that
  performs the deliveries is modelled by what it records: a map from node to the HTTP status
  of each completed delivery (its successes) and the set of nodes whose delivery failed at
  the transport level (its failures). Both only grow, and no node is recorded twice.
*/
module Publication {
  import opened Network

  /** Default `percent_to_complete_before_release`. */
  const DEFAULT_PERCENT_TO_COMPLETE: int := 5

  /** `math.ceil(total * percent / 100)`, as exact integer ceiling division. */
  function Quorum(total: nat, percent: int): (q: int)
    ensures 100 * (q - 1) < total * percent <= 100 * q
  {
    (total * percent + 99) / 100
  }

  /** For a percentage in `0..100` the quorum is a count of nodes between 0 and all of them. */
  lemma QuorumWithinTotal(total: nat, percent: int)
    requires 0 <= percent <= 100
    ensures 0 <= Quorum(total, percent) <= total
  {
    assert total * percent <= total * 100;
  }

  /** The default 5% of 20 nodes is a single node. */
  lemma DefaultQuorumOfTwenty()
    ensures Quorum(20, DEFAULT_PERCENT_TO_COMPLETE) == 1
  {
  }

  /** The result of `block_until_success_is_reasonably_likely`. */
  datatype PublicationOutcome =
    | Published(completed: map<Address, int>)
    | Unpaid
      /** `EnactmentError`; its report gives each contacted address with its status. */
    | EnactmentError(report: map<Address, int>)
      /** The worker pool's `OutOfValues`: every node was tried and too few deliveries completed. */
    | OutOfValues

  /** The status check made on the completed deliveries once the quorum is reached. */
  function CheckStatuses(responses: map<Address, int>): (r: PublicationOutcome)
    ensures !r.OutOfValues?
    ensures r.Published? ==> r.completed == responses
    ensures r.EnactmentError? ==> r.report == responses
  {
    if forall a | a in responses :: responses[a] == CREATED then Published(responses)
    else if exists a | a in responses :: responses[a] == PAYMENT_REQUIRED then Unpaid
    else EnactmentError(responses)
  }

  /** The completed deliveries are handed back unchanged exactly when every one returned 201. */
  lemma AllCreatedPublishes(responses: map<Address, int>)
    ensures CheckStatuses(responses) == Published(responses)
        <==> forall a | a in responses :: responses[a] == CREATED
  {
  }

  /** A single 402 makes the check raise `Unpaid`, whatever the other statuses are. */
  lemma UnpaidTakesPrecedence(responses: map<Address, int>)
    ensures CheckStatuses(responses) == Unpaid
        <==> exists a | a in responses :: responses[a] == PAYMENT_REQUIRED
  {
  }

  /**
    Otherwise a status other than 201 gives `EnactmentError`, whose report names every
    contacted address with its status.
  */
  lemma EnactmentErrorReportsEveryAddress(responses: map<Address, int>)
    ensures CheckStatuses(responses).EnactmentError?
        <==> (exists a | a in responses :: responses[a] != CREATED)
             && (forall a | a in responses :: responses[a] != PAYMENT_REQUIRED)
    ensures CheckStatuses(responses).EnactmentError? ==>
              CheckStatuses(responses).report.Keys == responses.Keys
              && forall a | a in responses :: CheckStatuses(responses).report[a] == responses[a]
  {
  }

  /** `m` is contained in `m'`, as an earlier snapshot of a growing map is in a later one. */
  ghost predicate IsSubmap<K, V>(m: map<K, V>, m': map<K, V>)
  {
    forall k | k in m :: k in m' && m'[k] == m[k]
  }

  /** Once a 402 has been recorded, every later check raises `Unpaid`. */
  lemma UnpaidPersists(earlier: map<Address, int>, later: map<Address, int>)
    requires IsSubmap(earlier, later)
    requires CheckStatuses(earlier) == Unpaid
    ensures CheckStatuses(later) == Unpaid
  {
    var a :| a in earlier && earlier[a] == PAYMENT_REQUIRED;
    assert later[a] == PAYMENT_REQUIRED;
  }

  /** A check that publishes would also have published on any earlier snapshot. */
  lemma PublishedOnEarlierSnapshots(earlier: map<Address, int>, later: map<Address, int>)
    requires IsSubmap(earlier, later)
    requires CheckStatuses(later).Published?
    ensures CheckStatuses(earlier) == Published(earlier)
  {
    forall a | a in earlier ensures earlier[a] == CREATED {
      assert later[a] == earlier[a];
    }
  }

  class TreasureMapPublisher {
    /** The nodes handed to the worker pool's all-at-once factory. */
    const nodes: seq<Address>
    /** `_total` */
    const total: nat
    /** `_block_until_this_many_are_complete` */
    const quorum: int
    var started: bool
    /** The pool's successes: node -> status of the completed delivery. */
    var successes: map<Address, int>
    /** The pool's failures: nodes whose delivery raised. */
    var failures: set<Address>

    ghost predicate Valid()
      reads this
    {
      && total == |nodes|
      && successes.Keys !! failures
      && (forall a | a in successes :: a in nodes)
      && (forall a | a in failures :: a in nodes)
      && (!started ==> successes == map[] && failures == {})
    }

    constructor (nodes: seq<Address>, percentToCompleteBeforeRelease: int)
      ensures Valid()
      ensures this.nodes == nodes && total == |nodes|
      ensures quorum == Quorum(|nodes|, percentToCompleteBeforeRelease)
      ensures !started && successes == map[] && failures == {}
    {
      this.nodes := nodes;
      total := |nodes|;
      quorum := Quorum(|nodes|, percentToCompleteBeforeRelease);
      started := false;
      successes := map[];
      failures := {};
    }

    /** `start`: the pool begins delivering; the background `join` is not modelled. */
    method Start()
      requires Valid() && !started
      modifies this
      ensures Valid() && started
      ensures successes == old(successes) && failures == old(failures)
    {
      started := true;
    }

    /** A delivery to `node` came back with an HTTP response carrying `status`. */
    method RecordDelivery(node: Address, status: int)
      requires Valid() && started
      requires node in nodes && node !in successes && node !in failures
      modifies this`successes
      ensures Valid()
      ensures successes == old(successes)[node := status]
      ensures IsSubmap(old(successes), successes)
    {
      successes := successes[node := status];
    }

    /** A delivery to `node` raised before any response arrived. */
    method RecordUnreachable(node: Address)
      requires Valid() && started
      requires node in nodes && node !in successes && node !in failures
      modifies this`failures
      ensures Valid()
      ensures failures == old(failures) + {node}
    {
      failures := failures + {node};
    }

    /** `completed` */
    function Completed(): (c: map<Address, int>)
      requires Valid()
      reads this
      ensures forall a | a in c :: a in nodes && a !in failures
    {
      successes
    }

    /** Every node has a recorded outcome: the all-at-once factory has nothing left. */
    predicate Exhausted()
      reads this
    {
      forall a | a in nodes :: a in successes || a in failures
    }

    /**
      `block_until_success_is_reasonably_likely`. The call blocks until the quorum of
      deliveries has completed or no node is left to try; the precondition stands for that
      wait. Then the statuses of the completed deliveries are checked.
    */
    method BlockUntilSuccessIsReasonablyLikely() returns (r: PublicationOutcome)
      requires Valid() && started
      requires quorum <= |successes| || Exhausted()
      ensures quorum <= |successes| ==> r == CheckStatuses(Completed())
      ensures |successes| < quorum ==> r == OutOfValues
      ensures r.Published? ==> r.completed == successes && quorum <= |r.completed|
    {
      if |successes| < quorum {
        return OutOfValues;
      }
      r := CheckStatuses(Completed());
    }
  }
}
