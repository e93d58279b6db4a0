/**
 * The forwarding selector shared by the three routers: for every
 * connection (in connection order) whose other end is not transferring,
 * and for every buffered message (in buffer order) that the neighbour does
 * not already hold, the energy gate decides whether the pair is offered.
 * Life and Wave first consult the neighbour's `delivered` map: a message
 * the neighbour knows to be delivered is not offered, and the local counter
 * for it is set to the neighbour's counter plus one.
 */
module Selection {
  import opened Messages
  import opened AckKeys

  /**
   * The energy gate: a neighbour whose energy is below the threshold is
   * skipped, unless it is the message's destination.
   */
  predicate EnergyAllows(c: Neighbour, m: Message, threshold: real) {
    !(c.energy < threshold && m.to != c.host)
  }

  /** Life and Wave consult acknowledgements; FirstContact does not. */
  datatype Policy = WithAcks(threshold: real) | WithoutAcks(threshold: real)

  /** The pair (m, c) makes it into the candidate list. */
  predicate Offerable(p: Policy, c: Neighbour, m: Message) {
    && !c.transferring
    && m.id !in c.holds
    && (p.WithAcks? ==> KeyOf(m) !in c.delivered)
    && EnergyAllows(c, m, p.threshold)
  }

  /** The neighbour knows `m` was delivered; the selector learns it. */
  predicate Learns(c: Neighbour, m: Message) {
    !c.transferring && m.id !in c.holds && KeyOf(m) in c.delivered
  }

  /** The offers made over one connection, in buffer order. */
  function Row(c: Neighbour, msgs: seq<Message>, p: Policy): (r: seq<Offer>)
    ensures |r| <= |msgs|
  {
    if msgs == [] then []
    else
      var m := msgs[|msgs| - 1];
      Row(c, msgs[..|msgs| - 1], p) + (if Offerable(p, c, m) then [Offer(m, c.host)] else [])
  }

  /** The candidate list: connection-major, then buffer order. */
  function Pairs(conns: seq<Neighbour>, msgs: seq<Message>, p: Policy): seq<Offer> {
    if conns == [] then []
    else
      var c := conns[|conns| - 1];
      Pairs(conns[..|conns| - 1], msgs, p) + (if c.transferring then [] else Row(c, msgs, p))
  }

  /** The local `delivered` map after the gossip over one connection. */
  function GossipRow(d: map<string, int32>, c: Neighbour, msgs: seq<Message>): (r: map<string, int32>)
    ensures d.Keys <= r.Keys
  {
    if msgs == [] then d
    else
      var d1 := GossipRow(d, c, msgs[..|msgs| - 1]);
      var m := msgs[|msgs| - 1];
      if Learns(c, m) then d1[KeyOf(m) := Inc32(c.delivered[KeyOf(m)])] else d1
  }

  /** The local `delivered` map after the gossip over all connections. */
  function Gossip(d: map<string, int32>, conns: seq<Neighbour>, msgs: seq<Message>): (r: map<string, int32>)
    ensures d.Keys <= r.Keys
  {
    if conns == [] then d
    else
      var c := conns[|conns| - 1];
      var d1 := Gossip(d, conns[..|conns| - 1], msgs);
      if c.transferring then d1 else GossipRow(d1, c, msgs)
  }

  /**
   * The loop of `tryOtherMessages` in Life and Wave: the candidate list it
   * hands to `tryMessagesForConnected`, and the local `delivered` map it
   * leaves.
   */
  method SelectOffers(msgs: seq<Message>, conns: seq<Neighbour>, threshold: real, delivered: map<string, int32>)
    returns (offers: seq<Offer>, learned: map<string, int32>)
    ensures offers == Pairs(conns, msgs, WithAcks(threshold))
    ensures learned == Gossip(delivered, conns, msgs)
  {
    ghost var p := WithAcks(threshold);
    offers, learned := [], delivered;
    for i := 0 to |conns|
      invariant offers == Pairs(conns[..i], msgs, p)
      invariant learned == Gossip(delivered, conns[..i], msgs)
    {
      var c := conns[i];
      assert conns[..i + 1][..i] == conns[..i];
      if c.transferring {
        continue;
      }
      ghost var before, start := offers, learned;
      for j := 0 to |msgs|
        invariant offers == before + Row(c, msgs[..j], p)
        invariant learned == GossipRow(start, c, msgs[..j])
      {
        var m := msgs[j];
        assert msgs[..j + 1][..j] == msgs[..j];
        if m.id in c.holds {
          continue;
        }
        var key := KeyOf(m);
        if key in c.delivered {
          learned := learned[key := Inc32(c.delivered[key])];
          continue;
        }
        if c.energy < threshold && m.to != c.host {
          continue;
        }
        // `tryOtherMessages` appends the same pair whether or not c is the destination
        offers := offers + [Offer(m, c.host)];
      }
      assert msgs[..|msgs|] == msgs;
    }
    assert conns[..|conns|] == conns;
  }

  /** The list FirstContact builds in `update`: the same loop without acknowledgements. */
  method CandidateList(msgs: seq<Message>, conns: seq<Neighbour>, threshold: real)
    returns (offers: seq<Offer>)
    ensures offers == Pairs(conns, msgs, WithoutAcks(threshold))
  {
    ghost var p := WithoutAcks(threshold);
    offers := [];
    for i := 0 to |conns|
      invariant offers == Pairs(conns[..i], msgs, p)
    {
      var c := conns[i];
      assert conns[..i + 1][..i] == conns[..i];
      if c.transferring {
        continue;
      }
      ghost var before := offers;
      for j := 0 to |msgs|
        invariant offers == before + Row(c, msgs[..j], p)
      {
        var m := msgs[j];
        assert msgs[..j + 1][..j] == msgs[..j];
        if m.id in c.holds {
          continue;
        }
        if c.energy < threshold && m.to != c.host {
          continue;
        }
        offers := offers + [Offer(m, c.host)];
      }
      assert msgs[..|msgs|] == msgs;
    }
    assert conns[..|conns|] == conns;
  }

  /** At most one pair per connection and buffered message. */
  lemma {:induction false} PairsBound(conns: seq<Neighbour>, msgs: seq<Message>, p: Policy)
    ensures |Pairs(conns, msgs, p)| <= |conns| * |msgs|
  {
    if conns != [] {
      var n := |conns| - 1;
      var front := conns[..n];
      PairsBound(front, msgs, p);
      var c := conns[n];
      assert Pairs(conns, msgs, p) == Pairs(front, msgs, p) + (if c.transferring then [] else Row(c, msgs, p));
      assert |Pairs(conns, msgs, p)| <= |Pairs(front, msgs, p)| + |msgs|;
      MulStep(n, |msgs|);
    }
  }

  lemma MulStep(n: nat, m: nat)
    ensures n * m + m == (n + 1) * m
  {
  }

  /** `o` is the offer of message `m` over the connection to `c`, and the pair passes the filters. */
  predicate OfferOf(p: Policy, c: Neighbour, m: Message, o: Offer) {
    Offerable(p, c, m) && o == Offer(m, c.host)
  }

  lemma {:induction false} RowMembership(c: Neighbour, msgs: seq<Message>, p: Policy, o: Offer)
    ensures o in Row(c, msgs, p) <==> exists j :: 0 <= j < |msgs| && OfferOf(p, c, msgs[j], o)
  {
    if msgs != [] {
      var n := |msgs| - 1;
      var front := msgs[..n];
      RowMembership(c, front, p, o);
      assert Row(c, msgs, p) == Row(c, front, p) + (if Offerable(p, c, msgs[n]) then [Offer(msgs[n], c.host)] else []);
      if o in Row(c, msgs, p) {
        if o in Row(c, front, p) {
          var j :| 0 <= j < |front| && OfferOf(p, c, front[j], o);
          assert msgs[j] == front[j];
        } else {
          assert OfferOf(p, c, msgs[n], o);
        }
      }
      if exists j :: 0 <= j < |msgs| && OfferOf(p, c, msgs[j], o) {
        var j :| 0 <= j < |msgs| && OfferOf(p, c, msgs[j], o);
        if j < n {
          assert OfferOf(p, c, front[j], o);
        }
      }
    }
  }

  /** Every offer in the candidate list comes from a connection and a message that pass the filters. */
  lemma {:induction false} PairsSound(conns: seq<Neighbour>, msgs: seq<Message>, p: Policy, o: Offer)
    requires o in Pairs(conns, msgs, p)
    ensures exists i, j :: 0 <= i < |conns| && 0 <= j < |msgs| && OfferOf(p, conns[i], msgs[j], o)
  {
    var n := |conns| - 1;
    var front := conns[..n];
    var c := conns[n];
    assert Pairs(conns, msgs, p) == Pairs(front, msgs, p) + (if c.transferring then [] else Row(c, msgs, p));
    if o in Pairs(front, msgs, p) {
      PairsSound(front, msgs, p, o);
      var i, j :| 0 <= i < |front| && 0 <= j < |msgs| && OfferOf(p, front[i], msgs[j], o);
      assert conns[i] == front[i];
    } else {
      RowMembership(c, msgs, p, o);
      var j :| 0 <= j < |msgs| && OfferOf(p, c, msgs[j], o);
      assert OfferOf(p, conns[n], msgs[j], o);
    }
  }

  /** A connection and a message that pass the filters give an offer in the candidate list. */
  lemma {:induction false} PairsComplete(conns: seq<Neighbour>, msgs: seq<Message>, p: Policy, o: Offer, i: nat, j: nat)
    requires i < |conns| && j < |msgs| && OfferOf(p, conns[i], msgs[j], o)
    ensures o in Pairs(conns, msgs, p)
  {
    var n := |conns| - 1;
    var front := conns[..n];
    var c := conns[n];
    assert Pairs(conns, msgs, p) == Pairs(front, msgs, p) + (if c.transferring then [] else Row(c, msgs, p));
    if i < n {
      assert OfferOf(p, front[i], msgs[j], o);
      PairsComplete(front, msgs, p, o, i, j);
    } else {
      RowMembership(c, msgs, p, o);
    }
  }

  /**
   * A pair is offered exactly when some connection and some buffered
   * message pass every filter of the policy.
   */
  lemma PairsMembership(conns: seq<Neighbour>, msgs: seq<Message>, p: Policy, o: Offer)
    ensures o in Pairs(conns, msgs, p) <==>
      exists i, j :: 0 <= i < |conns| && 0 <= j < |msgs| && OfferOf(p, conns[i], msgs[j], o)
  {
    if o in Pairs(conns, msgs, p) {
      PairsSound(conns, msgs, p, o);
    }
    if exists i, j :: 0 <= i < |conns| && 0 <= j < |msgs| && OfferOf(p, conns[i], msgs[j], o) {
      var i, j :| 0 <= i < |conns| && 0 <= j < |msgs| && OfferOf(p, conns[i], msgs[j], o);
      PairsComplete(conns, msgs, p, o, i, j);
    }
  }

  /**
   * Energy gate: every offer goes to a neighbour whose energy is at least
   * the threshold or that is the message's destination, and that is not
   * transferring and does not hold the message.
   */
  lemma EnergyGateRespected(conns: seq<Neighbour>, msgs: seq<Message>, p: Policy, k: nat)
    requires k < |Pairs(conns, msgs, p)|
    ensures exists i, j ::
              && 0 <= i < |conns| && 0 <= j < |msgs|
              && Pairs(conns, msgs, p)[k] == Offer(msgs[j], conns[i].host)
              && (conns[i].energy >= p.threshold || msgs[j].to == conns[i].host)
              && !conns[i].transferring && msgs[j].id !in conns[i].holds
  {
    PairsMembership(conns, msgs, p, Pairs(conns, msgs, p)[k]);
  }

  /** Direct delivery is never blocked by a neighbour's low energy. */
  lemma DestinationNeverBlocked(conns: seq<Neighbour>, msgs: seq<Message>, p: Policy, i: nat, j: nat)
    requires i < |conns| && j < |msgs|
    requires !conns[i].transferring && msgs[j].id !in conns[i].holds
    requires p.WithAcks? ==> KeyOf(msgs[j]) !in conns[i].delivered
    requires msgs[j].to == conns[i].host
    ensures Offer(msgs[j], conns[i].host) in Pairs(conns, msgs, p)
  {
    PairsMembership(conns, msgs, p, Offer(msgs[j], conns[i].host));
  }

  /** A message some neighbour knows to be delivered is not offered to it. */
  lemma LearnedNotOffered(conns: seq<Neighbour>, msgs: seq<Message>, threshold: real, k: nat)
    requires k < |Pairs(conns, msgs, WithAcks(threshold))|
    ensures exists i, j ::
              && 0 <= i < |conns| && 0 <= j < |msgs|
              && Pairs(conns, msgs, WithAcks(threshold))[k] == Offer(msgs[j], conns[i].host)
              && !Learns(conns[i], msgs[j])
  {
    PairsMembership(conns, msgs, WithAcks(threshold), Pairs(conns, msgs, WithAcks(threshold))[k]);
  }

  /** Connection `c` teaches key `k`: some buffered message with that key is known delivered there. */
  ghost predicate Teaches(c: Neighbour, msgs: seq<Message>, k: string) {
    exists j :: 0 <= j < |msgs| && Learns(c, msgs[j]) && KeyOf(msgs[j]) == k
  }

  /**
   * Over one connection, a taught key is set to the neighbour's counter
   * plus one (not added to the local one); every other entry is kept.
   */
  lemma {:induction false} GossipRowValue(d: map<string, int32>, c: Neighbour, msgs: seq<Message>, k: string)
    ensures Teaches(c, msgs, k) ==>
      k in c.delivered && k in GossipRow(d, c, msgs) && GossipRow(d, c, msgs)[k] == Inc32(c.delivered[k])
    ensures !Teaches(c, msgs, k) ==>
      (k in GossipRow(d, c, msgs) <==> k in d) && (k in d ==> GossipRow(d, c, msgs)[k] == d[k])
  {
    if msgs != [] {
      var front := msgs[..|msgs| - 1];
      var m := msgs[|msgs| - 1];
      GossipRowValue(d, c, front, k);
      if Teaches(c, front, k) {
        var j :| 0 <= j < |front| && Learns(c, front[j]) && KeyOf(front[j]) == k;
        assert msgs[j] == front[j];
      }
      if Teaches(c, msgs, k) && !(Learns(c, m) && KeyOf(m) == k) {
        var j :| 0 <= j < |msgs| && Learns(c, msgs[j]) && KeyOf(msgs[j]) == k;
        assert j < |front|;
        assert front[j] == msgs[j];
      }
    }
  }

  /** A key that no connection teaches keeps its local entry, or stays absent. */
  lemma {:induction false} GossipUntaught(d: map<string, int32>, conns: seq<Neighbour>, msgs: seq<Message>, k: string)
    requires forall i :: 0 <= i < |conns| ==> !Teaches(conns[i], msgs, k)
    ensures k in Gossip(d, conns, msgs) <==> k in d
    ensures k in d ==> Gossip(d, conns, msgs)[k] == d[k]
  {
    if conns != [] {
      var n := |conns| - 1;
      var front := conns[..n];
      assert forall i :: 0 <= i < n ==> front[i] == conns[i];
      GossipUntaught(d, front, msgs, k);
      GossipRowValue(Gossip(d, front, msgs), conns[n], msgs, k);
    }
  }

  /**
   * A taught key ends up as `Inc32` of the counter of the last connection
   * that teaches it, whatever the local map held before.
   */
  lemma {:induction false} GossipLastTeacher(d: map<string, int32>, conns: seq<Neighbour>, msgs: seq<Message>, k: string, i: nat)
    requires i < |conns| && Teaches(conns[i], msgs, k)
    requires forall i' :: i < i' < |conns| ==> !Teaches(conns[i'], msgs, k)
    ensures k in conns[i].delivered && k in Gossip(d, conns, msgs)
    ensures Gossip(d, conns, msgs)[k] == Inc32(conns[i].delivered[k])
  {
    var n := |conns| - 1;
    var front := conns[..n];
    var c := conns[n];
    var d1 := Gossip(d, front, msgs);
    GossipRowValue(d1, c, msgs, k);
    if i < n {
      assert forall i' :: i < i' < n ==> front[i'] == conns[i'];
      assert front[i] == conns[i];
      GossipLastTeacher(d, front, msgs, k, i);
      assert !Teaches(c, msgs, k);
    } else {
      assert !c.transferring by {
        var j :| 0 <= j < |msgs| && Learns(c, msgs[j]) && KeyOf(msgs[j]) == k;
      }
    }
  }
}
