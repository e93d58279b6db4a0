/**
 * The message buffer of a router, as the base layer keeps it: messages by
 * id, visited in one fixed order. It is a sequence whose ids are distinct.
 */
module MessageBuffer {
  import opened Messages

  /** `hasMessage(id)`. */
  predicate Holds(b: seq<Message>, id: string) {
    exists i :: 0 <= i < |b| && b[i].id == id
  }

  /** A buffer is keyed by id: no id occurs twice. */
  predicate DistinctIds(b: seq<Message>) {
    forall i, j :: 0 <= i < j < |b| ==> b[i].id != b[j].id
  }

  /**
   * The buffer after `deleteMessage` of every id in `ids`: the other
   * messages, in their order.
   */
  function Without(b: seq<Message>, ids: set<string>): (r: seq<Message>)
    ensures |r| <= |b|
    ensures forall m :: m in r <==> m in b && m.id !in ids
    ensures DistinctIds(b) ==> DistinctIds(r)
  {
    if b == [] then []
    else
      var rest := Without(b[1..], ids);
      assert forall m :: m in rest ==> m in b[1..];
      if b[0].id in ids then rest else [b[0]] + rest
  }

  /** Deleting ids one after another is deleting them all at once. */
  lemma {:induction false} WithoutTwice(b: seq<Message>, s: set<string>, t: set<string>)
    ensures Without(Without(b, s), t) == Without(b, s + t)
  {
    if b != [] {
      WithoutTwice(b[1..], s, t);
      if b[0].id !in s {
        assert Without(b, s) == [b[0]] + Without(b[1..], s);
        assert Without(b, s)[1..] == Without(b[1..], s);
      }
    }
  }

  /** Deleting ids that are not buffered leaves the buffer as it was. */
  lemma {:induction false} WithoutAbsent(b: seq<Message>, ids: set<string>)
    requires forall i :: 0 <= i < |b| ==> b[i].id !in ids
    ensures Without(b, ids) == b
  {
    if b != [] {
      WithoutAbsent(b[1..], ids);
    }
  }

  /** The ids held by one more message of the buffer. */
  lemma HoldsExtend(b: seq<Message>, i: nat)
    requires i < |b|
    ensures forall id :: Holds(b[..i + 1], id) <==> Holds(b[..i], id) || id == b[i].id
  {
    forall id ensures Holds(b[..i + 1], id) <==> Holds(b[..i], id) || id == b[i].id {
      if Holds(b[..i + 1], id) {
        var j :| 0 <= j < i + 1 && b[..i + 1][j].id == id;
        if j < i { assert b[..i][j] == b[..i + 1][j]; }
      }
      if Holds(b[..i], id) {
        var j :| 0 <= j < i && b[..i][j].id == id;
        assert b[..i + 1][j] == b[..i][j];
      }
      if id == b[i].id {
        assert b[..i + 1][i] == b[i];
      }
    }
  }

  /** In a keyed buffer, no message before position `i` has the id of the one at `i`. */
  lemma NotHeldBefore(b: seq<Message>, i: nat)
    requires DistinctIds(b) && i < |b|
    ensures !Holds(b[..i], b[i].id)
  {
    forall j | 0 <= j < i ensures b[..i][j].id != b[i].id {
      assert b[..i][j] == b[j];
    }
  }

  /** After deleting `id`, the buffer no longer holds it. */
  lemma DeletedNotHeld(b: seq<Message>, id: string)
    ensures !Holds(Without(b, {id}), id)
  {
    var r := Without(b, {id});
    forall i | 0 <= i < |r| ensures r[i].id != id {
      assert r[i] in r;
    }
  }
}
