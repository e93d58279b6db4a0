/**
 * The Wave router: epidemic forwarding with immunity and custody, plus the
 * energy gate and in-band delivery acknowledgements.
 *
 * Immunity: a message received at time t is refused until
 * t + immunityTime. Custody: a message received at time t is not evicted
 * while now <= t + immunityTime * custodyFraction.
 */
module WaveRouting {
  import opened Messages
  import opened MessageBuffer
  import opened AckKeys
  import opened Selection

  class WaveRouter {
    /** The host this router is attached to. */
    const host: Host
    const immunityTime: real
    const custodyFraction: real
    /** The neighbour energy threshold of the energy gate. */
    const threshold: real

    /** The base layer's buffer, in its iteration order. */
    var buffer: seq<Message>
    /** Acknowledgement key to delivery counter. */
    var delivered: map<string, int32>
    /** Message id to the time it was last received (immunity). */
    var recentMessages: map<string, real>
    /** Message id to the time custody of it started. */
    var custodyMessages: map<string, real>

    ghost predicate Valid()
      reads this
    {
      DistinctIds(buffer)
    }

    /** The router built from the settings. */
    constructor (host: Host, immunityTime: real, custodyFraction: real, threshold: real)
      ensures Valid()
      ensures this.host == host && this.immunityTime == immunityTime
      ensures this.custodyFraction == custodyFraction && this.threshold == threshold
      ensures buffer == [] && delivered == map[] && recentMessages == map[] && custodyMessages == map[]
    {
      this.host := host;
      this.immunityTime := immunityTime;
      this.custodyFraction := custodyFraction;
      this.threshold := threshold;
      buffer := [];
      delivered := map[];
      recentMessages := map[];
      custodyMessages := map[];
    }

    /**
     * The copy constructor behind `replicate`: the settings are copied, the
     * buffer and the three maps start empty.
     */
    constructor Copy(r: WaveRouter, host: Host)
      ensures Valid()
      ensures this.host == host && immunityTime == r.immunityTime
      ensures custodyFraction == r.custodyFraction && threshold == r.threshold
      ensures buffer == [] && delivered == map[] && recentMessages == map[] && custodyMessages == map[]
    {
      this.host := host;
      immunityTime := r.immunityTime;
      custodyFraction := r.custodyFraction;
      threshold := r.threshold;
      buffer := [];
      delivered := map[];
      recentMessages := map[];
      custodyMessages := map[];
    }

    /** Still immune to `id` at time `now`. */
    predicate Immune(recent: map<string, real>, id: string, now: real) {
      id in recent && recent[id] + immunityTime > now
    }

    /** Custody that started at `start` has run out at time `now`. */
    predicate CustodyExpired(start: real, now: real) {
      now > start + immunityTime * custodyFraction
    }

    /**
     * `m` may be evicted: it is not under unexpired custody, and it is not
     * being sent when messages being sent are excluded.
     */
    predicate Evictable(custody: map<string, real>, m: Message, now: real,
                        excludeMsgBeingSent: bool, sending: set<string>)
    {
      && (m.id in custody ==> CustodyExpired(custody[m.id], now))
      && !(excludeMsgBeingSent && m.id in sending)
    }

    /**
     * Refuses a message still within its immunity window, keeping the
     * record; otherwise drops an expired record and answers as the base
     * layer does.
     */
    method CheckReceiving(m: Message, now: real, baseResult: int) returns (code: int)
      modifies this`recentMessages
      ensures Immune(old(recentMessages), m.id, now) ==>
        code == DENIED_POLICY && recentMessages == old(recentMessages)
      ensures !Immune(old(recentMessages), m.id, now) ==>
        code == baseResult && recentMessages == old(recentMessages) - {m.id}
    {
      if m.id in recentMessages {
        var lastTime := recentMessages[m.id];
        if lastTime + immunityTime > now {
          return DENIED_POLICY;
        } else {
          recentMessages := recentMessages - {m.id};
        }
      }
      code := baseResult;
    }

    /**
     * The custody map once the expired entries of the messages in `b` are
     * forgotten; every other entry stays.
     */
    function Purged(custody: map<string, real>, b: seq<Message>, now: real): map<string, real> {
      map id | id in custody && !(Holds(b, id) && CustodyExpired(custody[id], now)) :: custody[id]
    }

    /**
     * The purge only forgets: every entry it keeps is an original one, the
     * entries of ids not in `b` all stay, and so do unexpired ones.
     */
    lemma PurgedOnlyForgets(custody: map<string, real>, b: seq<Message>, now: real, id: string)
      ensures id in Purged(custody, b, now) ==> id in custody && Purged(custody, b, now)[id] == custody[id]
      ensures id in custody && !Holds(b, id) ==> id in Purged(custody, b, now)
      ensures id in custody && !CustodyExpired(custody[id], now) ==> id in Purged(custody, b, now)
      ensures Holds(b, id) && id in custody && CustodyExpired(custody[id], now) ==> id !in Purged(custody, b, now)
    {
    }

    /** Visiting one more buffered message forgets at most its own expired entry. */
    lemma PurgedStep(custody: map<string, real>, b: seq<Message>, i: nat, now: real)
      requires i < |b|
      ensures Purged(custody, b[..i + 1], now) ==
        if b[i].id in custody && CustodyExpired(custody[b[i].id], now)
        then Purged(custody, b[..i], now) - {b[i].id}
        else Purged(custody, b[..i], now)
    {
      HoldsExtend(b, i);
    }

    /**
     * The eviction choice: the first buffered message with the oldest
     * receive time among those that are evictable; None when none is.
     * On the way it forgets the expired custody of every buffered message.
     */
    method GetNextMessageToRemove(excludeMsgBeingSent: bool, sending: set<string>, now: real)
      returns (oldest: Option<Message>)
      requires Valid()
      modifies this`custodyMessages
      ensures oldest.None? <==>
        forall i :: 0 <= i < |buffer| ==>
          !Evictable(old(custodyMessages), buffer[i], now, excludeMsgBeingSent, sending)
      ensures oldest.Some? ==> exists k ::
        && 0 <= k < |buffer| && oldest.value == buffer[k]
        && Evictable(old(custodyMessages), buffer[k], now, excludeMsgBeingSent, sending)
        && (forall i | 0 <= i < |buffer|
                         && Evictable(old(custodyMessages), buffer[i], now, excludeMsgBeingSent, sending) ::
              buffer[k].receiveTime <= buffer[i].receiveTime)
        && (forall i | 0 <= i < k
                         && Evictable(old(custodyMessages), buffer[i], now, excludeMsgBeingSent, sending) ::
              buffer[k].receiveTime < buffer[i].receiveTime)
      ensures custodyMessages == Purged(old(custodyMessages), buffer, now)
    {
      ghost var custody0 := custodyMessages;
      ghost var k := 0;
      oldest := None;
      for i := 0 to |buffer|
        invariant custodyMessages == Purged(custody0, buffer[..i], now)
        invariant oldest.None? <==>
          forall j :: 0 <= j < i ==> !Evictable(custody0, buffer[j], now, excludeMsgBeingSent, sending)
        invariant oldest.Some? ==>
          && k < i && oldest.value == buffer[k]
          && Evictable(custody0, buffer[k], now, excludeMsgBeingSent, sending)
          && (forall j :: 0 <= j < i && Evictable(custody0, buffer[j], now, excludeMsgBeingSent, sending) ==>
                buffer[k].receiveTime <= buffer[j].receiveTime)
          && (forall j :: 0 <= j < k && Evictable(custody0, buffer[j], now, excludeMsgBeingSent, sending) ==>
                buffer[k].receiveTime < buffer[j].receiveTime)
      {
        var m := buffer[i];
        NotHeldBefore(buffer, i);
        PurgedStep(custody0, buffer, i, now);
        assert m.id in custodyMessages <==> m.id in custody0;
        if m.id in custodyMessages {
          var custodyStartTime := custodyMessages[m.id];
          if now > custodyStartTime + immunityTime * custodyFraction {
            custodyMessages := custodyMessages - {m.id};
          } else {
            continue;
          }
        }
        if excludeMsgBeingSent && m.id in sending {
          continue;
        }
        if oldest.None? {
          oldest, k := Some(m), i;
        } else if oldest.value.receiveTime > m.receiveTime {
          oldest, k := Some(m), i;
        }
      }
      assert buffer[..|buffer|] == buffer;
    }

    /** `tryOtherMessages`: offer the gated candidates, learn from the neighbours' acknowledgements. */
    method TryOtherMessages(conns: seq<Neighbour>) returns (acts: seq<Action>)
      modifies this`delivered
      ensures delivered == Gossip(old(delivered), conns, buffer)
      ensures acts == [TryMessagesForConnected(Pairs(conns, buffer, WithAcks(threshold)))]
    {
      var offers, learned := SelectOffers(buffer, conns, threshold, delivered);
      delivered := learned;
      acts := [TryMessagesForConnected(offers)];
    }

    /**
     * One tick: the base update, then (unless transferring or unable to
     * start a transfer) direct delivery, and only when that started nothing
     * the gated candidate list. The buffer is never changed here.
     */
    method Update(conns: seq<Neighbour>, transferring: bool, canStartTransfer: bool,
                  deliverableStarted: bool) returns (acts: seq<Action>)
      modifies this`delivered
      ensures transferring || !canStartTransfer ==>
        acts == [BaseUpdate] && delivered == old(delivered)
      ensures !transferring && canStartTransfer && deliverableStarted ==>
        acts == [BaseUpdate, ExchangeDeliverable] && delivered == old(delivered)
      ensures !transferring && canStartTransfer && !deliverableStarted ==>
        && acts == [BaseUpdate, ExchangeDeliverable, TryMessagesForConnected(Pairs(conns, buffer, WithAcks(threshold)))]
        && delivered == Gossip(old(delivered), conns, buffer)
    {
      acts := [BaseUpdate];
      if transferring || !canStartTransfer {
        return;
      }
      acts := acts + [ExchangeDeliverable];
      if deliverableStarted {
        return;
      }
      var tried := TryOtherMessages(conns);
      acts := acts + tried;
    }

    /**
     * An acknowledgement (size -1) records its key, deletes the payload its
     * first field names and answers 0 without consulting the base layer.
     * Any other message gets the base layer's answer; when that is RCV_OK
     * and the message is addressed here, one acknowledgement goes back to
     * the sender and its key is recorded.
     */
    method ReceiveMessage(m: Message, from: Host, baseResult: int) returns (reply: Reply, acts: seq<Action>)
      requires Valid()
      modifies this`delivered, this`buffer
      ensures Valid()
      ensures IsAck(m) ==> delivered == old(delivered)[m.id := 1]
      ensures IsAck(m) && FirstField(m.id).Some? ==>
        && reply == Code(RCV_OK)
        && buffer == Without(old(buffer), {FirstField(m.id).value})
        && acts == [DeleteMessage(FirstField(m.id).value, false)]
      ensures IsAck(m) && FirstField(m.id).None? ==>
        reply == IndexOutOfBounds && buffer == old(buffer) && acts == []
      ensures !IsAck(m) ==> reply == Code(baseResult) && buffer == old(buffer)
      ensures !IsAck(m) && m.to == host && baseResult == RCV_OK ==>
        acts == [AckSent(from, host, KeyOf(m))] && delivered == old(delivered)[KeyOf(m) := 1]
      ensures !IsAck(m) && !(m.to == host && baseResult == RCV_OK) ==>
        acts == [] && delivered == old(delivered)
    {
      if m.size == -1 {
        var ackId := m.id;
        delivered := delivered[ackId := 1];
        var parts := FirstField(ackId);
        if parts.None? {
          return IndexOutOfBounds, [];
        }
        var payloadId := parts.value;
        buffer := Without(buffer, {payloadId});
        return Code(0), [DeleteMessage(payloadId, false)];
      }
      var i := baseResult;
      acts := [];
      if m.to == host && i == RCV_OK {
        var ackId := AckKey(m.id, m.from, m.to);
        acts := [AckSent(from, host, ackId)];
        delivered := delivered[ackId := 1];
      }
      reply := Code(i);
    }

    /**
     * A message has arrived. The base layer answers with the message `msg`
     * and, through `stored`, whether it put it into the buffer (it does for
     * a message not addressed here); a stored message replaces any buffered
     * one with its id. Then the immunity and the custody of the arrival
     * start now.
     */
    method MessageTransferred(id: string, msg: Message, stored: bool, now: real)
      requires Valid()
      modifies this`buffer, this`recentMessages, this`custodyMessages
      ensures Valid()
      ensures buffer == if stored then Without(old(buffer), {msg.id}) + [msg] else old(buffer)
      ensures stored && !Holds(old(buffer), msg.id) ==> buffer == old(buffer) + [msg]
      ensures stored ==> Holds(buffer, msg.id)
      ensures recentMessages == old(recentMessages)[msg.id := now]
      ensures custodyMessages == old(custodyMessages)[id := now]
    {
      if stored {
        Store(msg);
      }
      recentMessages := recentMessages[msg.id := now];
      custodyMessages := custodyMessages[id := now];
    }

    /** `addToMessages`: the buffer keyed by id gets `msg` at the end of its order. */
    method Store(msg: Message)
      requires Valid()
      modifies this`buffer
      ensures Valid()
      ensures buffer == Without(old(buffer), {msg.id}) + [msg]
      ensures !Holds(old(buffer), msg.id) ==> buffer == old(buffer) + [msg]
      ensures Holds(buffer, msg.id)
    {
      var rest := Without(buffer, {msg.id});
      DeletedNotHeld(buffer, msg.id);
      if !Holds(buffer, msg.id) {
        WithoutAbsent(buffer, {msg.id});
      }
      buffer := rest + [msg];
      assert buffer[|rest|] == msg;
      assert forall i :: 0 <= i < |rest| ==> buffer[i] == rest[i];
    }

    /**
     * After an arrival recorded at `now` by `MessageTransferred`, the same id
     * is refused exactly until the immunity window ends: combined with the
     * contract of `CheckReceiving`, which answers DENIED_POLICY exactly when
     * `Immune` holds.
     */
    lemma ImmuneUntilWindowEnds(recent: map<string, real>, id: string, now: real, t: real)
      ensures Immune(recent[id := now], id, t) <==> t < now + immunityTime
    {
    }

    /**
     * After an arrival recorded at `now` by `MessageTransferred`, the message
     * cannot be chosen for eviction until its custody has run out: combined
     * with the contract of `GetNextMessageToRemove`, which only ever returns
     * an `Evictable` message.
     */
    lemma CustodyProtectsArrival(custody: map<string, real>, m: Message, now: real, t: real,
                                 excludeMsgBeingSent: bool, sending: set<string>)
      ensures Evictable(custody[m.id := now], m, t, excludeMsgBeingSent, sending) ==>
        t > now + immunityTime * custodyFraction
    {
    }

    /** A transfer of message `id` has finished: only its custody entry goes; the buffer keeps it. */
    method TransferDone(id: string)
      modifies this`custodyMessages
      ensures custodyMessages == old(custodyMessages) - {id}
    {
      custodyMessages := custodyMessages - {id};
    }
  }
}
