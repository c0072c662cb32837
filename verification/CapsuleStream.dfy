/** A stream of capsules, taken in fragments. */
module CapsuleStream {
  import opened Bytes
  import opened VarInt62
  import opened WireSerialization
  import opened Capsules
  import opened CapsuleRoundTrip
  import opened Sequences

  const MAX_BUFFER: nat := 1024 * 1024

  /** Whether the visitor accepts the last of the capsules it has seen. */
  type Visitor = seq<Capsule> -> bool

  datatype Step = NeedMore | Bad | Next(capsule: Capsule, rest: seq<byte>)

  /** The capsule at the front of the buffer. */
  function NextCapsule(s: seq<byte>): (r: Step)
    ensures r.Next? ==> |r.rest| + 2 <= |s|
  {
    match Read(s)
    case Short => NeedMore
    case Got(kind, s1) =>
      match ReadString(s1)
      case Short => NeedMore
      case Got(payload, rest) =>
        match ParsePayload(kind, payload)
        case None => Bad
        case Some(c) => Next(c, rest)
  }

  datatype State = State(buffer: seq<byte>, delivered: seq<Capsule>, failed: bool)

  /** Capsule after capsule, until bytes are missing or something is wrong. */
  function Run(h: Visitor, delivered: seq<Capsule>, s: seq<byte>): (r: State)
    decreases |s|
  {
    match NextCapsule(s)
    case NeedMore => State(s, delivered, false)
    case Bad => State([], delivered, true)
    case Next(c, rest) =>
      if h(delivered + [c]) then Run(h, delivered + [c], rest) else State([], delivered + [c], true)
  }

  /** What a fragment does; a parser that has failed ignores it. */
  function Ingest(h: Visitor, st: State, fragment: seq<byte>): (r: State) {
    if st.failed then st
    else
      var r := Run(h, st.delivered, st.buffer + fragment);
      if |r.buffer| > MAX_BUFFER then State([], r.delivered, true) else r
  }

  function Feed(h: Visitor, st: State, fragments: seq<seq<byte>>): (r: State)
    decreases |fragments|
  {
    if fragments == [] then st else Feed(h, Ingest(h, st, fragments[0]), fragments[1..])
  }

  // ---------------------------------------------------------------------------------------------
  // Fragments

  lemma NextCapsuleExtends(a: seq<byte>, b: seq<byte>)
    ensures NextCapsule(a).Bad? ==> NextCapsule(a + b).Bad?
    ensures NextCapsule(a).Next? ==> NextCapsule(a + b) == Next(NextCapsule(a).capsule, NextCapsule(a).rest + b)
  {
    hide Read, ReadString, ParsePayload;
    if Read(a).Got? {
      ReadExtends(a, b);
      if ReadString(Read(a).rest).Got? {
        ReadStringExtends(Read(a).rest, b);
      }
    }
  }

  /** Nothing is left over that could already have been taken. */
  lemma {:induction false} RunSettles(h: Visitor, delivered: seq<Capsule>, s: seq<byte>)
    ensures NextCapsule(Run(h, delivered, s).buffer).NeedMore?
    ensures delivered <= Run(h, delivered, s).delivered
    decreases |s|
  {
    hide NextCapsule;
    NothingNeedsMore();
    if NextCapsule(s).Next? && h(delivered + [NextCapsule(s).capsule]) {
      RunSettles(h, delivered + [NextCapsule(s).capsule], NextCapsule(s).rest);
    }
  }

  lemma NothingNeedsMore()
    ensures NextCapsule([]).NeedMore?
  {
  }

  /** Bytes that come later change nothing about what was done before. */
  lemma {:induction false} RunSplit(h: Visitor, delivered: seq<Capsule>, a: seq<byte>, b: seq<byte>)
    ensures var r := Run(h, delivered, a);
            Run(h, delivered, a + b) == if r.failed then r else Run(h, r.delivered, r.buffer + b)
    decreases |a|
  {
    hide NextCapsule;
    NextCapsuleExtends(a, b);
    if NextCapsule(a).Next? && h(delivered + [NextCapsule(a).capsule]) {
      RunSplit(h, delivered + [NextCapsule(a).capsule], NextCapsule(a).rest, b);
    }
  }

  /** Each capsule takes at least two bytes. */
  lemma {:induction false} RunProgress(h: Visitor, delivered: seq<Capsule>, s: seq<byte>)
    ensures var r := Run(h, delivered, s); 2 * (|r.delivered| - |delivered|) + |r.buffer| <= |s|
    decreases |s|
  {
    hide NextCapsule;
    if NextCapsule(s).Next? && h(delivered + [NextCapsule(s).capsule]) {
      RunProgress(h, delivered + [NextCapsule(s).capsule], NextCapsule(s).rest);
    }
  }

  /** What would be left over after the first `k` fragments stays within the limit, for every `k`. */
  predicate Bounded(h: Visitor, st: State, fragments: seq<seq<byte>>)
    decreases |fragments|
  {
    fragments != [] ==>
      var r := Run(h, st.delivered, st.buffer + fragments[0]);
      |r.buffer| <= MAX_BUFFER && (!r.failed ==> Bounded(h, r, fragments[1..]))
  }

  lemma {:induction false} FeedFailed(h: Visitor, st: State, fragments: seq<seq<byte>>)
    requires st.failed
    ensures Feed(h, st, fragments) == st
    decreases |fragments|
  {
    if fragments != [] {
      FeedFailed(h, st, fragments[1..]);
    }
  }

  /**
   * However a stream is cut, the same capsules are delivered and the same bytes are left over as from
   * one piece, if no fragment leaves too much behind; if one does, the parser fails.  In both cases it
   * has delivered nothing that one piece would not have delivered.
   */
  lemma {:induction false} AnyCutting(h: Visitor, st: State, fragments: seq<seq<byte>>)
    requires !st.failed && NextCapsule(st.buffer).NeedMore?
    ensures var whole := Run(h, st.delivered, st.buffer + Concat(fragments));
            && (Bounded(h, st, fragments) ==> Feed(h, st, fragments) == whole)
            && (!Bounded(h, st, fragments) ==> Feed(h, st, fragments).failed)
            && Feed(h, st, fragments).delivered <= whole.delivered
    decreases |fragments|
  {
    if fragments == [] {
      assert st.buffer + [] == st.buffer;
      hide NextCapsule;
    } else {
      hide NextCapsule, Run;
      var a, b := st.buffer + fragments[0], Concat(fragments[1..]);
      var r := Run(h, st.delivered, a);
      assert st.buffer + Concat(fragments) == a + b;
      RunSplit(h, st.delivered, a, b);
      RunSettles(h, st.delivered, a);
      RunSettles(h, r.delivered, r.buffer + b);
      if r.failed || |r.buffer| > MAX_BUFFER {
        FeedFailed(h, Ingest(h, st, fragments[0]), fragments[1..]);
        FailedRunIsEmpty(h, st.delivered, a);
      } else {
        AnyCutting(h, r, fragments[1..]);
      }
    }
  }

  lemma {:induction false} FailedRunIsEmpty(h: Visitor, delivered: seq<Capsule>, s: seq<byte>)
    ensures Run(h, delivered, s).failed ==> Run(h, delivered, s).buffer == []
    decreases |s|
  {
    hide NextCapsule;
    if NextCapsule(s).Next? && h(delivered + [NextCapsule(s).capsule]) {
      FailedRunIsEmpty(h, delivered + [NextCapsule(s).capsule], NextCapsule(s).rest);
    }
  }

  // ---------------------------------------------------------------------------------------------
  // Capsules that were written

  lemma FrameComesBack(kind: nat, payload: seq<byte>, c: Capsule, tail: seq<byte>)
    requires kind < LIMIT && |payload| < LIMIT
    requires ParsePayload(kind, payload) == Some(c)
    ensures NextCapsule(Encode(kind) + (EncodeString(payload) + tail)) == Next(c, tail)
  {
    hide ParsePayload, Read, ReadString, Encode, EncodeString;
    ReadEncode(kind, EncodeString(payload) + tail);
    ReadStringEncode(payload, tail);
  }

  lemma SerializedFrame(c: Capsule, payload: seq<byte>)
    requires Serialized(c).Some? && AllBytes(Fields(c)) == Some(payload)
    ensures TypeOf(c) < LIMIT && |payload| < LIMIT
    ensures Serialized(c).value == Encode(TypeOf(c)) + EncodeString(payload)
  {
    hide Fields, TypeOf, Encode, Serialized, AllBytes, TotalLength;
    SerializedKind(c);
    TotalLengthIsExact(Fields(c));
  }

  lemma CapsuleComesBack(c: Capsule, tail: seq<byte>)
    requires WellFormed(c) && Serialized(c).Some?
    ensures NextCapsule(Serialized(c).value + tail) == Next(c, tail)
  {
    hide WellFormed, Fields, TypeOf, ParsePayload, Encode, EncodeString, Serialized, AllBytes, NextCapsule;
    PayloadComesBack(c);
    var payload := AllBytes(Fields(c)).value;
    SerializedFrame(c, payload);
    FrameComesBack(TypeOf(c), payload, c, tail);
    assert Serialized(c).value + tail == Encode(TypeOf(c)) + (EncodeString(payload) + tail);
  }

  function AllSerialized(cs: seq<Capsule>): seq<byte>
    requires forall i :: 0 <= i < |cs| ==> Serialized(cs[i]).Some?
  {
    if cs == [] then [] else Serialized(cs[0]).value + AllSerialized(cs[1..])
  }

  /** A visitor that accepts every one of these capsules when it comes. */
  predicate Accepts(h: Visitor, delivered: seq<Capsule>, cs: seq<Capsule>) {
    forall i :: 0 < i <= |cs| ==> h(delivered + cs[..i])
  }

  lemma AcceptsRest(h: Visitor, delivered: seq<Capsule>, cs: seq<Capsule>)
    requires Accepts(h, delivered, cs) && cs != []
    ensures h(delivered + [cs[0]]) && Accepts(h, delivered + [cs[0]], cs[1..])
  {
    assert cs[..1] == [cs[0]];
    forall i | 0 < i <= |cs| - 1
      ensures h(delivered + [cs[0]] + cs[1..][..i])
    {
      assert delivered + [cs[0]] + cs[1..][..i] == delivered + cs[..i + 1];
    }
  }

  lemma RunTakesOne(h: Visitor, delivered: seq<Capsule>, c: Capsule, rest: seq<byte>)
    requires WellFormed(c) && Serialized(c).Some? && h(delivered + [c])
    ensures Run(h, delivered, Serialized(c).value + rest) == Run(h, delivered + [c], rest)
  {
    hide WellFormed, Serialized, NextCapsule;
    CapsuleComesBack(c, rest);
  }

  /** Well-formed capsules are delivered as they were, one after the other. */
  lemma {:induction false} StreamComesBack(h: Visitor, delivered: seq<Capsule>, cs: seq<Capsule>, tail: seq<byte>)
    requires forall i :: 0 <= i < |cs| ==> WellFormed(cs[i]) && Serialized(cs[i]).Some?
    requires Accepts(h, delivered, cs)
    ensures Run(h, delivered, AllSerialized(cs) + tail) == Run(h, delivered + cs, tail)
    decreases |cs|
  {
    hide WellFormed, Serialized, Run, Accepts;
    if cs == [] {
      assert [] + tail == tail && delivered + [] == delivered;
    } else {
      var c, others := cs[0], cs[1..];
      var rest := AllSerialized(others) + tail;
      assert AllSerialized(cs) + tail == Serialized(c).value + rest;
      hide AllSerialized;
      AcceptsRest(h, delivered, cs);
      RunTakesOne(h, delivered, c, rest);
      StreamComesBack(h, delivered + [c], others, tail);
      assert delivered + [c] + others == delivered + cs;
    }
  }

  /** A part of a capsule is not enough. */
  lemma PartNeedsMore(c: Capsule, k: nat)
    requires WellFormed(c) && Serialized(c).Some? && k < |Serialized(c).value|
    ensures NextCapsule(Serialized(c).value[..k]).NeedMore?
  {
    hide WellFormed, Serialized, NextCapsule;
    var s := Serialized(c).value;
    CapsuleComesBack(c, []);
    assert s + [] == s && s[..k] + s[k..] == s;
    NextCapsuleExtends(s[..k], s[k..]);
  }

  const START := State([], [], false)

  lemma CapsuleInOnePiece(h: Visitor, c: Capsule)
    requires WellFormed(c) && Serialized(c).Some? && h([c])
    ensures Feed(h, START, [Serialized(c).value]) == State([], [c], false)
  {
    hide WellFormed, Serialized, NextCapsule;
    var s := Serialized(c).value;
    CapsuleComesBack(c, []);
    NothingNeedsMore();
    assert s + [] == s && [] + s == s;
    assert Run(h, [], s) == Run(h, [c], []) by { assert [] + [c] == [c]; }
    var once: seq<seq<byte>> := [s];
    assert once[1..] == [];
  }

  /** The limit makes the cutting matter: a large capsule is taken whole, but not in two parts. */
  lemma LargeCapsule(h: Visitor, c: Capsule, k: nat)
    requires WellFormed(c) && Serialized(c).Some? && h([c])
    requires MAX_BUFFER < k < |Serialized(c).value|
    ensures var s := Serialized(c).value;
            && Feed(h, START, [s]) == State([], [c], false)
            && Feed(h, START, [s[..k], s[k..]]) == State([], [], true)
  {
    hide WellFormed, Serialized, NextCapsule;
    var s := Serialized(c).value;
    CapsuleInOnePiece(h, c);
    PartNeedsMore(c, k);
    assert [] + s[..k] == s[..k];
    assert Ingest(h, START, s[..k]) == State([], [], true);
    hide Run;
    FeedFailed(h, State([], [], true), [s[k..]]);
    var twice: seq<seq<byte>> := [s[..k], s[k..]];
    assert twice[1..] == [s[k..]];
  }

  /** A header and the data that follow it are the capsule. */
  lemma StreamHeader(id: nat, fin: bool, data: seq<byte>)
    requires id < LIMIT && Len(id) + |data| < LIMIT
    ensures var header := [VarInt(if fin then WT_STREAM_WITH_FIN else WT_STREAM), VarInt(|data| + Len(id)), VarInt(id)];
            Joined(AllBytes(header), Some(data)) == Serialized(StreamData(id, data, fin))
  {
    var kind := VarInt(if fin then WT_STREAM_WITH_FIN else WT_STREAM);
    var length := VarInt(|data| + Len(id));
    ThreeFields(kind, length, VarInt(id));
    FourFields(kind, length, VarInt(id), Raw(data));
    assert [VarInt(id), Raw(data)][1..] == [Raw(data)];
    assert TotalLength([Raw(data)]) == |data| + TotalLength([Raw(data)][1..]);
    assert TotalLength([VarInt(id), Raw(data)]) == Len(id) + TotalLength([Raw(data)]);
    assert Framed(kind.value, [VarInt(id), Raw(data)]) == [kind, length] + [VarInt(id), Raw(data)];
    assert [kind, length] + [VarInt(id), Raw(data)] == [kind, length, VarInt(id), Raw(data)];
    hide AllBytes, Encode;
    JoinedAssociative(BytesOnWire(kind), Joined(BytesOnWire(length), BytesOnWire(VarInt(id))), Some(data));
    JoinedAssociative(BytesOnWire(length), BytesOnWire(VarInt(id)), Some(data));
  }
}
