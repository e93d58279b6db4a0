/**
 * The FirstContact router: a single copy of each message, handed to the
 * first contact that takes it. The energy-gated candidate list it builds
 * in `update` is never used: after direct delivery it asks the base layer
 * to try all messages on all connections.
 */
module FirstContactRouting {
  import opened Messages
  import opened MessageBuffer
  import opened Selection

  class FirstContactRouter {
    /** The host this router is attached to. */
    const host: Host
    /** The neighbour energy threshold of the energy gate. */
    const threshold: real

    /** The base layer's buffer, in its iteration order. */
    var buffer: seq<Message>

    ghost predicate Valid()
      reads this
    {
      DistinctIds(buffer)
    }

    /** The router built from the settings, and the copy behind `replicate`. */
    constructor (host: Host, threshold: real)
      ensures Valid()
      ensures this.host == host && this.threshold == threshold && buffer == []
    {
      this.host := host;
      this.threshold := threshold;
      buffer := [];
    }

    /**
     * Any base refusal passes through; a message the base accepts is
     * refused as old when its hop list already contains this host.
     */
    function CheckReceiving(m: Message, baseResult: int): (code: int)
      ensures baseResult != RCV_OK ==> code == baseResult
      ensures baseResult == RCV_OK ==> (code == DENIED_OLD <==> host in m.hops)
      ensures baseResult == RCV_OK ==> (code == RCV_OK <==> host !in m.hops)
    {
      if baseResult == RCV_OK && host in m.hops then DENIED_OLD else baseResult
    }

    /**
     * One tick: the base update; unless transferring or unable to start,
     * the candidate list is built (and dropped), direct delivery is tried,
     * and only when that started nothing are all messages tried on all
     * connections.
     */
    method Update(conns: seq<Neighbour>, transferring: bool, canStartTransfer: bool,
                  deliverableStarted: bool) returns (acts: seq<Action>, unused: seq<Offer>)
      ensures transferring || !canStartTransfer ==> acts == [BaseUpdate] && unused == []
      ensures !transferring && canStartTransfer ==>
        && unused == Pairs(conns, buffer, WithoutAcks(threshold))
        && acts == [BaseUpdate, ExchangeDeliverable]
                   + (if deliverableStarted then [] else [TryAllMessagesToAllConnections])
      // the candidate list is never handed to `tryMessagesForConnected`
      ensures forall k :: 0 <= k < |acts| ==> !acts[k].TryMessagesForConnected?
    {
      acts := [BaseUpdate];
      unused := [];
      if transferring || !canStartTransfer {
        return;
      }
      unused := CandidateList(buffer, conns, threshold);
      acts := acts + [ExchangeDeliverable];
      if deliverableStarted {
        return;
      }
      acts := acts + [TryAllMessagesToAllConnections];
    }

    /** A transfer of message `id` has finished: no copy stays with the sender. */
    method TransferDone(id: string) returns (acts: seq<Action>)
      requires Valid()
      modifies this`buffer
      ensures Valid()
      ensures buffer == Without(old(buffer), {id})
      ensures !Holds(buffer, id)
      ensures acts == [DeleteMessage(id, false)]
    {
      buffer := Without(buffer, {id});
      DeletedNotHeld(old(buffer), id);
      acts := [DeleteMessage(id, false)];
    }
  }
}
