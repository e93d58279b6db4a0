/**
 * The Life router: a message is accepted and kept only while the number of
 * connected peers holding it lies in the window [countMin, countMax] (the
 * `nmcount` setting), plus the energy gate and in-band delivery
 * acknowledgements shared with Wave.
 */
module LifeRouting {
  import opened Messages
  import opened MessageBuffer
  import opened AckKeys
  import opened Selection

  /** The number of connections whose other end holds message `id`. */
  function PeerCount(conns: seq<Neighbour>, id: string): (n: nat)
    ensures n <= |conns|
  {
    if conns == [] then 0
    else PeerCount(conns[..|conns| - 1], id) + (if id in conns[|conns| - 1].holds then 1 else 0)
  }

  /** The count is the number of distinct connections holding the id. */
  lemma {:induction false} PeerCountIsCardinality(conns: seq<Neighbour>, id: string)
    ensures PeerCount(conns, id) == |set i | 0 <= i < |conns| && id in conns[i].holds|
  {
    if conns != [] {
      var n := |conns| - 1;
      var front := conns[..n];
      PeerCountIsCardinality(front, id);
      var before := set i | 0 <= i < n && id in front[i].holds;
      var after := set i | 0 <= i < |conns| && id in conns[i].holds;
      if id in conns[n].holds {
        assert after == before + {n};
      } else {
        assert after == before;
      }
    }
  }

  predicate InWindow(count: int, countMin: int, countMax: int) {
    countMin <= count <= countMax
  }

  /** The ids the sweep schedules for deletion, in buffer order. */
  function OutsideIds(b: seq<Message>, conns: seq<Neighbour>, countMin: int, countMax: int): (r: seq<string>)
    ensures |r| <= |b|
  {
    if b == [] then []
    else
      var m := b[|b| - 1];
      OutsideIds(b[..|b| - 1], conns, countMin, countMax)
        + (if InWindow(PeerCount(conns, m.id), countMin, countMax) then [] else [m.id])
  }

  /** One `deleteMessage(id, true)` per scheduled id, in order. */
  function Drops(ids: seq<string>): (r: seq<Action>)
    ensures |r| == |ids|
    ensures forall k :: 0 <= k < |ids| ==> r[k] == DeleteMessage(ids[k], true)
  {
    if ids == [] then [] else Drops(ids[..|ids| - 1]) + [DeleteMessage(ids[|ids| - 1], true)]
  }

  function AsSet(ids: seq<string>): set<string> {
    set x | x in ids
  }

  lemma {:induction false} OutsideIdsMembership(b: seq<Message>, conns: seq<Neighbour>, countMin: int, countMax: int, id: string)
    ensures id in OutsideIds(b, conns, countMin, countMax) <==>
      Holds(b, id) && !InWindow(PeerCount(conns, id), countMin, countMax)
  {
    if b != [] {
      var n := |b| - 1;
      var front := b[..n];
      OutsideIdsMembership(front, conns, countMin, countMax, id);
      if Holds(front, id) {
        var j :| 0 <= j < |front| && front[j].id == id;
        assert b[j] == front[j];
      }
      if Holds(b, id) && b[n].id != id {
        var j :| 0 <= j < |b| && b[j].id == id;
        assert front[j] == b[j];
      }
    }
  }

  /** Deleting the scheduled ids one at a time, as the second sweep loop does. */
  lemma DeleteStep(b: seq<Message>, ids: seq<string>, k: nat)
    requires k < |ids|
    ensures Without(Without(b, AsSet(ids[..k])), {ids[k]}) == Without(b, AsSet(ids[..k + 1]))
    ensures Drops(ids[..k + 1]) == Drops(ids[..k]) + [DeleteMessage(ids[k], true)]
  {
    WithoutTwice(b, AsSet(ids[..k]), {ids[k]});
    AsSetSnoc(ids, k);
    assert ids[..k + 1][..k] == ids[..k];
  }

  lemma AsSetSnoc(ids: seq<string>, k: nat)
    requires k < |ids|
    ensures AsSet(ids[..k + 1]) == AsSet(ids[..k]) + {ids[k]}
  {
    var front, next := ids[..k], ids[..k + 1];
    assert next == front + [ids[k]];
    forall x ensures x in AsSet(next) <==> x in AsSet(front) || x == ids[k] {
      assert x in next <==> x in front || x == ids[k];
    }
  }

  /**
   * The sweep deletes exactly the buffered messages whose peer count is
   * outside the window and keeps every other one.
   */
  lemma SweepKeepsExactlyWindow(b: seq<Message>, conns: seq<Neighbour>, countMin: int, countMax: int, m: Message)
    ensures m in Without(b, AsSet(OutsideIds(b, conns, countMin, countMax))) <==>
      m in b && InWindow(PeerCount(conns, m.id), countMin, countMax)
  {
    OutsideIdsMembership(b, conns, countMin, countMax, m.id);
    if m in b {
      var j :| 0 <= j < |b| && b[j] == m;
      assert Holds(b, m.id);
    }
  }

  class LifeRouter {
    /** The host this router is attached to. */
    const host: Host
    /** `countRange[0]` and `countRange[1]`. */
    const countMin: int
    const countMax: int
    /** The neighbour energy threshold of the energy gate. */
    const threshold: real

    /** The base layer's buffer, in its iteration order. */
    var buffer: seq<Message>
    /** Acknowledgement key to delivery counter. */
    var delivered: map<string, int32>

    ghost predicate Valid()
      reads this
    {
      DistinctIds(buffer)
    }

    /** The router built from the settings. */
    constructor (host: Host, countMin: int, countMax: int, threshold: real)
      ensures Valid()
      ensures this.host == host && this.countMin == countMin && this.countMax == countMax
      ensures this.threshold == threshold
      ensures buffer == [] && delivered == map[]
    {
      this.host := host;
      this.countMin := countMin;
      this.countMax := countMax;
      this.threshold := threshold;
      buffer := [];
      delivered := map[];
    }

    /** The copy constructor behind `replicate`: same window, fresh `delivered`, empty buffer. */
    constructor Copy(r: LifeRouter, host: Host)
      ensures Valid()
      ensures this.host == host && countMin == r.countMin && countMax == r.countMax
      ensures threshold == r.threshold
      ensures buffer == [] && delivered == map[]
    {
      this.host := host;
      countMin := r.countMin;
      countMax := r.countMax;
      threshold := r.threshold;
      buffer := [];
      delivered := map[];
    }

    /** `getPeerMessageCount`: how many connected peers hold `m`. */
    method GetPeerMessageCount(conns: seq<Neighbour>, m: Message) returns (peerMsgCount: nat)
      ensures peerMsgCount == PeerCount(conns, m.id)
      ensures peerMsgCount <= |conns|
    {
      peerMsgCount := 0;
      for i := 0 to |conns|
        invariant peerMsgCount == PeerCount(conns[..i], m.id)
      {
        assert conns[..i + 1][..i] == conns[..i];
        if m.id in conns[i].holds {
          peerMsgCount := peerMsgCount + 1;
        }
      }
      assert conns[..|conns|] == conns;
    }

    /** Refuses a message whose peer count is outside the window; otherwise answers as the base layer. */
    method CheckReceiving(m: Message, conns: seq<Neighbour>, baseResult: int) returns (code: int)
      ensures !InWindow(PeerCount(conns, m.id), countMin, countMax) ==> code == DENIED_POLICY
      ensures InWindow(PeerCount(conns, m.id), countMin, countMax) ==> code == baseResult
    {
      var peerMsgCount := GetPeerMessageCount(conns, m);
      if peerMsgCount < countMin || peerMsgCount > countMax {
        return DENIED_POLICY;
      }
      code := baseResult;
    }

    /** `tryOtherMessages`: offer the gated candidates, learn from the neighbours' acknowledgements. */
    method TryOtherMessages(conns: seq<Neighbour>) returns (acts: seq<Action>)
      modifies this`delivered
      ensures delivered == Gossip(old(delivered), conns, buffer)
      ensures acts == [TryMessagesForConnected(Pairs(conns, buffer, WithAcks(threshold)))]
    {
      var offers, learned := SelectOffers(buffer, conns, threshold, delivered);
      delivered := learned;
      acts := [TryMessagesForConnected(offers)];
    }

    /**
     * One tick: the base update; unless transferring or unable to start,
     * direct delivery; only when that started nothing, the gated candidate
     * list and then the sweep, which drops every buffered message whose
     * peer count is outside the window.
     */
    method Update(conns: seq<Neighbour>, transferring: bool, canStartTransfer: bool,
                  deliverableStarted: bool) returns (acts: seq<Action>)
      requires Valid()
      modifies this`delivered, this`buffer
      ensures Valid()
      ensures transferring || !canStartTransfer ==>
        acts == [BaseUpdate] && delivered == old(delivered) && buffer == old(buffer)
      ensures !transferring && canStartTransfer && deliverableStarted ==>
        acts == [BaseUpdate, ExchangeDeliverable] && delivered == old(delivered) && buffer == old(buffer)
      ensures !transferring && canStartTransfer && !deliverableStarted ==>
        && delivered == Gossip(old(delivered), conns, old(buffer))
        && buffer == Without(old(buffer), AsSet(OutsideIds(old(buffer), conns, countMin, countMax)))
        && acts == [BaseUpdate, ExchangeDeliverable, TryMessagesForConnected(Pairs(conns, old(buffer), WithAcks(threshold)))]
                   + Drops(OutsideIds(old(buffer), conns, countMin, countMax))
    {
      if transferring || !canStartTransfer {
        return [BaseUpdate];
      }
      if deliverableStarted {
        return [BaseUpdate, ExchangeDeliverable];
      }
      ghost var buffer0 := buffer;
      var tried := TryOtherMessages(conns);
      assert buffer == buffer0;
      ghost var head := [BaseUpdate, ExchangeDeliverable] + tried;
      assert head == [BaseUpdate, ExchangeDeliverable, TryMessagesForConnected(Pairs(conns, buffer0, WithAcks(threshold)))];
      var dropped := Sweep(conns);
      acts := [BaseUpdate, ExchangeDeliverable] + tried + dropped;
    }

    /** The drop sweep: schedule the ids outside the window, then delete them. */
    method Sweep(conns: seq<Neighbour>) returns (acts: seq<Action>)
      requires Valid()
      modifies this`buffer
      ensures Valid()
      ensures buffer == Without(old(buffer), AsSet(OutsideIds(old(buffer), conns, countMin, countMax)))
      ensures acts == Drops(OutsideIds(old(buffer), conns, countMin, countMax))
    {
      var messagesToDelete := ScheduleDrops(conns);
      acts := DeleteAll(messagesToDelete);
    }

    /** The first loop of the sweep: the ids whose peer count is outside the window, in buffer order. */
    method ScheduleDrops(conns: seq<Neighbour>) returns (messagesToDelete: seq<string>)
      ensures messagesToDelete == OutsideIds(buffer, conns, countMin, countMax)
    {
      messagesToDelete := [];
      for i := 0 to |buffer|
        invariant messagesToDelete == OutsideIds(buffer[..i], conns, countMin, countMax)
      {
        assert buffer[..i + 1][..i] == buffer[..i];
        var m := buffer[i];
        var peerMsgCount := GetPeerMessageCount(conns, m);
        if peerMsgCount < countMin || peerMsgCount > countMax {
          messagesToDelete := messagesToDelete + [m.id];
        }
      }
      assert buffer[..|buffer|] == buffer;
    }

    /** The second loop of the sweep: `deleteMessage(id, true)` for each scheduled id. */
    method DeleteAll(messagesToDelete: seq<string>) returns (acts: seq<Action>)
      requires Valid()
      modifies this`buffer
      ensures Valid()
      ensures buffer == Without(old(buffer), AsSet(messagesToDelete))
      ensures acts == Drops(messagesToDelete)
    {
      WithoutAbsent(buffer, {});
      assert AsSet(messagesToDelete[..0]) == {};
      acts := [];
      for k := 0 to |messagesToDelete|
        invariant buffer == Without(old(buffer), AsSet(messagesToDelete[..k]))
        invariant acts == Drops(messagesToDelete[..k])
        invariant DistinctIds(buffer)
      {
        var id := messagesToDelete[k];
        DeleteStep(old(buffer), messagesToDelete, k);
        buffer := Without(buffer, {id});
        acts := acts + [DeleteMessage(id, true)];
      }
      assert messagesToDelete[..|messagesToDelete|] == messagesToDelete;
    }

    /**
     * An acknowledgement (size -1) records its key, deletes the payload its
     * first field names and answers 0 without consulting the base layer.
     * Any other message gets the base layer's answer; when that is RCV_OK
     * and the message is addressed here, one acknowledgement goes back to
     * the sender and its key is recorded.
     */
    method ReceiveMessage(m: Message, from: Host, baseResult: int) returns (reply: Reply, acts: seq<Action>)
      requires Valid()
      modifies this`delivered, this`buffer
      ensures Valid()
      ensures IsAck(m) ==> delivered == old(delivered)[m.id := 1]
      ensures IsAck(m) && FirstField(m.id).Some? ==>
        && reply == Code(RCV_OK)
        && buffer == Without(old(buffer), {FirstField(m.id).value})
        && acts == [DeleteMessage(FirstField(m.id).value, false)]
      ensures IsAck(m) && FirstField(m.id).None? ==>
        reply == IndexOutOfBounds && buffer == old(buffer) && acts == []
      ensures !IsAck(m) ==> reply == Code(baseResult) && buffer == old(buffer)
      ensures !IsAck(m) && m.to == host && baseResult == RCV_OK ==>
        acts == [AckSent(from, host, KeyOf(m))] && delivered == old(delivered)[KeyOf(m) := 1]
      ensures !IsAck(m) && !(m.to == host && baseResult == RCV_OK) ==>
        acts == [] && delivered == old(delivered)
    {
      if m.size == -1 {
        var ackId := m.id;
        delivered := delivered[ackId := 1];
        var parts := FirstField(ackId);
        if parts.None? {
          return IndexOutOfBounds, [];
        }
        var payloadId := parts.value;
        buffer := Without(buffer, {payloadId});
        return Code(0), [DeleteMessage(payloadId, false)];
      }
      var i := baseResult;
      acts := [];
      if m.to == host && i == RCV_OK {
        var ackId := AckKey(m.id, m.from, m.to);
        acts := [AckSent(from, host, ackId)];
        delivered := delivered[ackId := 1];
      }
      reply := Code(i);
    }
  }
}
