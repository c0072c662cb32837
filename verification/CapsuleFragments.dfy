/** Which streams of capsules can be cut anywhere. */
module CapsuleFragments {
  import opened Bytes
  import opened Capsules
  import opened CapsuleStream
  import opened Sequences

  predicate Written(cs: seq<Capsule>) {
    forall i :: 0 <= i < |cs| ==> WellFormed(cs[i]) && Serialized(cs[i]).Some?
  }

  /** Without its last byte, each capsule is within the limit. */
  predicate Small(cs: seq<Capsule>)
    requires Written(cs)
  {
    forall i :: 0 <= i < |cs| ==> |Serialized(cs[i]).value| <= MAX_BUFFER + 1
  }

  /** The first part of a stream is some of the capsules and at most a part of the next. */
  lemma {:induction false} PartOfStream(h: Visitor, delivered: seq<Capsule>, cs: seq<Capsule>, s: seq<byte>,
                                        t: seq<byte>)
    returns (j: nat)
    requires Written(cs) && Small(cs) && Accepts(h, delivered, cs) && s + t == AllSerialized(cs)
    ensures j <= |cs| && Written(cs[j..])
    ensures var r := Run(h, delivered, s);
            && !r.failed && |r.buffer| <= MAX_BUFFER && r.delivered == delivered + cs[..j]
            && Accepts(h, r.delivered, cs[j..]) && r.buffer + t == AllSerialized(cs[j..])
    decreases |cs|
  {
    hide WellFormed, Serialized, NextCapsule, Accepts;
    j := 0;
    assert delivered + cs[..0] == delivered && cs[0..] == cs;
    if cs == [] {
      NothingNeedsMore();
      return;
    }
    var c := Serialized(cs[0]).value;
    assert c + AllSerialized(cs[1..]) == s + t;
    if |s| < |c| {
      assert s == (s + t)[..|s|] == c[..|s|];
      PartNeedsMore(cs[0], |s|);
    } else {
      var s' := s[|c|..];
      assert s == c + s' && s' + t == AllSerialized(cs[1..]);
      CapsuleComesBack(cs[0], s');
      AcceptsRest(h, delivered, cs);
      var i := PartOfStream(h, delivered + [cs[0]], cs[1..], s', t);
      j := i + 1;
      assert cs[1..][i..] == cs[j..];
      assert delivered + [cs[0]] + cs[1..][..i] == delivered + cs[..j];
    }
  }

  lemma {:induction false} FragmentsBounded(h: Visitor, st: State, cs: seq<Capsule>, fragments: seq<seq<byte>>)
    requires Written(cs) && Small(cs) && Accepts(h, st.delivered, cs)
    requires st.buffer + Concat(fragments) == AllSerialized(cs)
    ensures Bounded(h, st, fragments)
    decreases |fragments|
  {
    hide WellFormed, Serialized, Run, Accepts;
    if fragments != [] {
      var s, t := st.buffer + fragments[0], Concat(fragments[1..]);
      assert s + t == AllSerialized(cs);
      var j := PartOfStream(h, st.delivered, cs, s, t);
      FragmentsBounded(h, Run(h, st.delivered, s), cs[j..], fragments[1..]);
    }
  }

  /** Small capsules are delivered, all of them and in order, however their bytes are cut. */
  lemma SmallCapsulesArrive(h: Visitor, cs: seq<Capsule>, fragments: seq<seq<byte>>)
    requires Written(cs) && Small(cs) && Accepts(h, [], cs)
    requires Concat(fragments) == AllSerialized(cs)
    ensures Feed(h, START, fragments) == State([], cs, false)
  {
    hide WellFormed, Serialized, NextCapsule, Accepts, AllSerialized, Feed, Bounded;
    var data := AllSerialized(cs);
    assert [] + data == data && data + [] == data && [] + cs == cs;
    NothingNeedsMore();
    FragmentsBounded(h, START, cs, fragments);
    AnyCutting(h, START, fragments);
    StreamComesBack(h, [], cs, []);
  }

  /** Where to cut a stream so that a capsule that is not small does not arrive. */
  lemma LargeCapsuleStops(h: Visitor, cs: seq<Capsule>, i: nat) returns (fragments: seq<seq<byte>>)
    requires Written(cs) && Accepts(h, [], cs)
    requires i < |cs| && |Serialized(cs[i]).value| > MAX_BUFFER + 1
    ensures Concat(fragments) == AllSerialized(cs) && Feed(h, START, fragments).failed
  {
    hide WellFormed, Serialized, NextCapsule, AllSerialized;
    var before, c := AllSerialized(cs[..i]), Serialized(cs[i]).value;
    var part := c[..MAX_BUFFER + 1];
    var rest := c[MAX_BUFFER + 1..] + AllSerialized(cs[i + 1..]);
    fragments := [before + part, rest];
    assert Concat(fragments) == AllSerialized(cs) by {
      AllSerializedAt(cs, i);
      var last: seq<seq<byte>> := [rest];
      assert fragments[1..] == last && last[1..] == [];
      assert Concat(last) == rest + [] == rest;
      assert Concat(fragments) == before + part + rest;
      assert part + rest == c + AllSerialized(cs[i + 1..]);
    }
    AcceptsPrefix(h, cs, i);
    StreamComesBack(h, [], cs[..i], part);
    PartNeedsMore(cs[i], MAX_BUFFER + 1);
    assert [] + (before + part) == before + part;
    assert Ingest(h, START, before + part).failed;
    hide Run;
    FeedFailed(h, Ingest(h, START, before + part), fragments[1..]);
  }

  lemma AcceptsPrefix(h: Visitor, cs: seq<Capsule>, i: nat)
    requires Accepts(h, [], cs) && i <= |cs|
    ensures Accepts(h, [], cs[..i])
  {
    assert forall k :: 0 < k <= i ==> cs[..i][..k] == cs[..k];
  }

  lemma {:induction false} AllSerializedAt(cs: seq<Capsule>, i: nat)
    requires Written(cs) && i < |cs|
    ensures AllSerialized(cs) == AllSerialized(cs[..i]) + (Serialized(cs[i]).value + AllSerialized(cs[i + 1..]))
    decreases |cs|
  {
    hide WellFormed, Serialized;
    if i == 0 {
      assert cs[..0] == [];
    } else {
      AllSerializedAt(cs[1..], i - 1);
      assert cs[..i][1..] == cs[1..][..i - 1] && cs[1..][i..] == cs[i + 1..];
    }
  }

  /** Every cutting delivers exactly the capsules if and only if each of them is small. */
  lemma EveryCuttingArrives(h: Visitor, cs: seq<Capsule>)
    requires Written(cs) && Accepts(h, [], cs)
    ensures (forall fragments: seq<seq<byte>> ::
               Concat(fragments) == AllSerialized(cs) ==> Feed(h, START, fragments) == State([], cs, false))
            <==> Small(cs)
  {
    hide WellFormed, Serialized, Accepts, AllSerialized, Feed, Concat;
    if Small(cs) {
      forall fragments: seq<seq<byte>> | Concat(fragments) == AllSerialized(cs)
        ensures Feed(h, START, fragments) == State([], cs, false)
      {
        SmallCapsulesArrive(h, cs, fragments);
      }
    } else {
      var i :| 0 <= i < |cs| && |Serialized(cs[i]).value| > MAX_BUFFER + 1;
      var fragments := LargeCapsuleStops(h, cs, i);
    }
  }
}
