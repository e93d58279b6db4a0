/**
 * Acknowledgement keys. A delivery of message `id` from `from` to `to` is
 * recorded under the key `id<−>from<−>to`, where the separator is the three
 * characters U+003C, U+2212 (MINUS SIGN), U+003E. A received
 * acknowledgement names its payload by the first field of
 * `key.split("<−>")` (Java's `String.split`, which also drops trailing
 * empty fields).
 */
module AckKeys {
  import opened Messages

  const SEP: string := "<\U{2212}>"

  /** The key built from a message's id and the names of its endpoints. */
  function AckKey(id: string, from: Host, to: Host): (k: string)
    ensures |k| == |id| + |from.name| + |to.name| + 2 * |SEP|
    ensures k[..|id|] == id && SepAt(k, |id|)
  {
    var key := id + SEP + from.name + SEP + to.name;
    assert key[|id|..|id| + |SEP|] == SEP;
    key
  }

  function KeyOf(m: Message): string {
    AckKey(m.id, m.from, m.to)
  }

  /** A separator starts at position `i` of `s`. */
  predicate SepAt(s: string, i: nat) {
    i + |SEP| <= |s| && s[i..i + |SEP|] == SEP
  }

  ghost predicate ContainsSep(s: string) {
    exists i: nat :: SepAt(s, i)
  }

  /** The first position at or after `k` where a separator starts, or `|s|`. */
  function FirstSepFrom(s: string, k: nat): (i: nat)
    requires k <= |s|
    ensures k <= i <= |s|
    ensures i < |s| ==> SepAt(s, i)
    ensures forall j: nat :: k <= j < i ==> !SepAt(s, j)
    decreases |s| - k
  {
    if k + |SEP| > |s| then |s|
    else if SepAt(s, k) then k
    else FirstSepFrom(s, k + 1)
  }

  /** The pieces between successive separators, trailing empty ones included. */
  function Fields(s: string): (r: seq<string>)
    ensures |r| > 0
    decreases |s|
  {
    var i := FirstSepFrom(s, 0);
    if i == |s| then [s] else [s[..i]] + Fields(s[i + |SEP|..])
  }

  function DropTrailingEmpty(p: seq<string>): seq<string> {
    if p == [] then []
    else if p[|p| - 1] == "" then DropTrailingEmpty(p[..|p| - 1])
    else p
  }

  /** `s.split("<−>")`: the whole string when there is no separator. */
  function Split(s: string): seq<string> {
    if FirstSepFrom(s, 0) == |s| then [s] else DropTrailingEmpty(Fields(s))
  }

  /** A non-empty run of separators and nothing else splits into no field at all. */
  predicate OnlySeps(s: string)
    decreases |s|
  {
    s == [] || (SepAt(s, 0) && OnlySeps(s[|SEP|..]))
  }

  predicate AllEmpty(p: seq<string>) {
    forall k :: 0 <= k < |p| ==> p[k] == ""
  }

  lemma {:induction false} DropTrailingEmptyPrefix(p: seq<string>)
    ensures DropTrailingEmpty(p) == [] <==> AllEmpty(p)
    ensures DropTrailingEmpty(p) != [] ==> DropTrailingEmpty(p)[0] == p[0]
  {
    if p != [] && p[|p| - 1] == "" {
      var q := p[..|p| - 1];
      DropTrailingEmptyPrefix(q);
      if AllEmpty(q) {
        forall k | 0 <= k < |p| ensures p[k] == "" {
          if k < |q| { assert p[k] == q[k]; }
        }
      }
      if AllEmpty(p) {
        forall k | 0 <= k < |q| ensures q[k] == "" { assert q[k] == p[k]; }
      }
    }
  }

  lemma {:induction false} FieldsAllEmpty(s: string)
    ensures AllEmpty(Fields(s)) <==> OnlySeps(s)
    decreases |s|
  {
    var i := FirstSepFrom(s, 0);
    if i == |s| {
      assert Fields(s) == [s];
      assert [s][0] == s;
      if s != [] { assert !SepAt(s, 0); }
    } else {
      var rest := s[i + |SEP|..];
      FieldsAllEmpty(rest);
      var f := Fields(s);
      assert f == [s[..i]] + Fields(rest);
      if AllEmpty(f) {
        assert f[0] == s[..i] == "";
        assert i == 0;
        forall k | 0 <= k < |Fields(rest)| ensures Fields(rest)[k] == "" {
          assert Fields(rest)[k] == f[k + 1];
        }
      }
      if OnlySeps(s) {
        assert s != [];
        assert SepAt(s, 0);
        assert i == 0;
        forall k | 0 <= k < |f| ensures f[k] == "" {
          if k > 0 { assert f[k] == Fields(rest)[k - 1]; }
        }
      }
    }
  }

  /**
   * `parts[0]` of `s.split("<−>")`: the part of `s` before its first
   * separator, or None when the split array is empty, which happens exactly
   * when `s` is one or more separators and nothing else.
   */
  function FirstField(s: string): (r: Option<string>)
    ensures r.None? <==> s != [] && OnlySeps(s)
    ensures r.Some? ==> |r.value| <= |s| && r.value == s[..|r.value|]
    ensures r.Some? ==> !ContainsSep(r.value)
    ensures r.Some? && |r.value| < |s| ==> SepAt(s, |r.value|)
  {
    SplitHead(s);
    PrefixBeforeSepHasNone(s, FirstSepFrom(s, 0));
    var parts := Split(s);
    if |parts| == 0 then None else Some(parts[0])
  }

  /** What Java's split leaves in `parts[0]`, and when the array is empty. */
  lemma SplitHead(s: string)
    ensures |Split(s)| == 0 <==> s != [] && OnlySeps(s)
    ensures |Split(s)| > 0 ==> Split(s)[0] == s[..FirstSepFrom(s, 0)]
  {
    var i := FirstSepFrom(s, 0);
    if i == |s| {
      if s != [] { assert !SepAt(s, 0); }
    } else {
      DropTrailingEmptyPrefix(Fields(s));
      FieldsAllEmpty(s);
    }
  }

  lemma PrefixBeforeSepHasNone(s: string, i: nat)
    requires i <= |s|
    requires forall j: nat :: j < i ==> !SepAt(s, j)
    ensures !ContainsSep(s[..i])
  {
    if ContainsSep(s[..i]) {
      var j: nat :| SepAt(s[..i], j);
      assert s[j..j + |SEP|] == s[..i][j..j + |SEP|];
      assert SepAt(s, j);
    }
  }

  /** A string with no separator splits into itself: the whole id names the payload. */
  lemma NoSepWholeField(s: string)
    requires !ContainsSep(s)
    ensures FirstField(s) == Some(s)
  {
    var i := FirstSepFrom(s, 0);
    assert !SepAt(s, i);
    if s != [] { assert !SepAt(s, 0); }
    SplitHead(s);
  }

  /** A separator cannot start inside `w` when `w` has none and is followed by one. */
  lemma NoSepBefore(w: string, rest: string, j: nat)
    requires !ContainsSep(w)
    requires j < |w|
    ensures !SepAt(w + SEP + rest, j)
  {
    var s := w + SEP + rest;
    if j + |SEP| <= |w| {
      assert w[j..j + |SEP|] == s[j..j + |SEP|];
      assert !SepAt(w, j);
    } else if j == |w| - 1 {
      assert s[j..j + |SEP|][1] == s[j + 1] == SEP[0] != SEP[1];
    } else {
      assert s[j..j + |SEP|][2] == s[j + 2] == SEP[0] != SEP[2];
    }
  }

  lemma SepAtJoin(w: string, rest: string)
    ensures SepAt(w + SEP + rest, |w|)
  {
    assert (w + SEP + rest)[|w|..|w| + |SEP|] == SEP;
  }

  /** The excluded case happens: an empty id between empty names gives a key of separators only. */
  lemma EmptyKeyHasNoField()
    ensures FirstField(AckKey("", Host(0, ""), Host(1, ""))) == None
  {
    var key := AckKey("", Host(0, ""), Host(1, ""));
    assert key == SEP + SEP;
    assert SepAt(key, 0);
    assert key[|SEP|..] == SEP;
    assert SepAt(key[|SEP|..], 0);
    assert key[|SEP|..][|SEP|..] == [];
  }

  /**
   * Round trip: the first field of a key built from `id` is `id`, when
   * `id` has no separator in it, unless `id` is empty and the whole key is
   * separators only (then `split` yields no field at all).
   */
  lemma KeyRoundTrip(id: string, from: Host, to: Host)
    requires !ContainsSep(id)
    requires id != [] || !OnlySeps(AckKey(id, from, to))
    ensures FirstField(AckKey(id, from, to)) == Some(id)
  {
    var key := AckKey(id, from, to);
    var tail := from.name + SEP + to.name;
    assert key == id + SEP + tail;
    SepAtJoin(id, tail);
    if id != [] {
      NoSepBefore(id, tail, 0);
    }
    assert !OnlySeps(key);
    forall j: nat | j < |id| ensures !SepAt(key, j) {
      NoSepBefore(id, tail, j);
    }
    assert FirstSepFrom(key, 0) == |id|;
    assert key[..|id|] == id;
    SplitHead(key);
  }
}
