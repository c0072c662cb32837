/** What the bytes of a capsule are, said of the bytes alone, and that the parser takes exactly these. */
module CapsulePayloads {
  import opened Bytes
  import opened Sequences
  import opened VarInt62
  import opened Capsules
  import opened CapsuleStream

  // ---------------------------------------------------------------------------------------------
  // The bytes

  /** A packed address, and the byte that stands for its family. */
  predicate IsAddress(family: byte, a: seq<byte>) {
    (family == 4 && |a| == 4) || (family == 6 && |a| == 16)
  }

  /** A request identifier, a family, an address of it and a prefix length of at most its bits. */
  ghost predicate PrefixIs(b: seq<byte>, p: PrefixWithId) {
    exists id: seq<byte>, family: byte ::
      && IsVarint(id, p.requestId) && IsAddress(family, p.address)
      && p.prefixLength as int <= 8 * |p.address|
      && b == id + ([family] + p.address + [p.prefixLength])
  }

  /** A family, two addresses of it and a protocol. */
  ghost predicate RangeIs(b: seq<byte>, r: IpAddressRange) {
    exists family: byte ::
      && IsAddress(family, r.start) && IsAddress(family, r.end)
      && b == [family] + r.start + r.end + [r.protocol]
  }

  /** One entry after another and nothing else. */
  ghost predicate PrefixesAre(s: seq<byte>, ps: seq<PrefixWithId>) {
    exists parts: seq<seq<byte>> ::
      |parts| == |ps| && Concat(parts) == s && forall i :: 0 <= i < |ps| ==> PrefixIs(parts[i], ps[i])
  }

  ghost predicate RangesAre(s: seq<byte>, rs: seq<IpAddressRange>) {
    exists parts: seq<seq<byte>> ::
      |parts| == |rs| && Concat(parts) == s && forall i :: 0 <= i < |rs| ==> RangeIs(parts[i], rs[i])
  }

  // ---------------------------------------------------------------------------------------------
  // Entries

  lemma ReadFamilyIs(family: byte, t: seq<byte>)
    ensures ReadFamily([family] + t) == if family == 4 || family == 6 then Got(family, t) else Short
  {
    var s := [family] + t;
    assert s[..1] == [family] && s[1..] == t;
    FromBytes1([family]);
  }

  lemma ReadAddressIs(family: byte, a: seq<byte>, t: seq<byte>)
    requires IsAddress(family, a)
    ensures ReadAddress(a + t, family) == Got(a, t)
  {
    assert (a + t)[..|a|] == a && (a + t)[|a|..] == t;
  }

  lemma ReadPrefixIs(b: seq<byte>, p: PrefixWithId, t: seq<byte>)
    requires PrefixIs(b, p)
    ensures ReadPrefix(b + t) == Got(p, t)
  {
    hide Read, IsVarint, ReadFamily, ReadAddress;
    var id, family :| IsVarint(id, p.requestId) && IsAddress(family, p.address)
                      && p.prefixLength as int <= 8 * |p.address|
                      && b == id + ([family] + p.address + [p.prefixLength]);
    var s3 := [p.prefixLength] + t;
    var s2 := p.address + s3;
    var s1 := [family] + s2;
    assert b + t == id + s1;
    assert id != [] by { VarintNotEmpty(id, p.requestId); }
    ReadExactly(id, p.requestId, s1);
    ReadFamilyIs(family, s2);
    ReadAddressIs(family, p.address, s3);
    assert s3[0] == p.prefixLength && s3[1..] == t;
  }

  lemma VarintNotEmpty(b: seq<byte>, v: nat)
    requires IsVarint(b, v)
    ensures b != []
  {
  }

  lemma TakenAddress(s: seq<byte>, family: nat)
    requires (family == 4 || family == 6) && ReadAddress(s, family).Got?
    ensures IsAddress(family, ReadAddress(s, family).value)
    ensures s == ReadAddress(s, family).value + ReadAddress(s, family).rest
  {
  }

  lemma TakenFamily(s: seq<byte>)
    requires ReadFamily(s).Got?
    ensures ReadFamily(s).value < 256 && s == [ReadFamily(s).value as byte] + ReadFamily(s).rest
  {
    FromBytes1(s[..1]);
    assert s == s[..1] + s[1..];
  }

  lemma PrefixWasRead(s: seq<byte>) returns (b: seq<byte>)
    requires ReadPrefix(s).Got?
    ensures PrefixIs(b, ReadPrefix(s).value) && s == b + ReadPrefix(s).rest
  {
    hide Read, IsVarint, ReadFamily, ReadAddress;
    var id := ReadIsVarint(s);
    var s1 := Read(s).rest;
    TakenFamily(s1);
    var s2 := ReadFamily(s1).rest;
    TakenAddress(s2, ReadFamily(s1).value);
    var family: byte, a := ReadFamily(s1).value, ReadAddress(s2, ReadFamily(s1).value).value;
    var s3 := ReadAddress(s2, family).rest;
    assert s3 == [s3[0]] + s3[1..];
    b := id + ([family] + a + [s3[0]]);
    assert s == b + s3[1..];
  }

  lemma ReadRangeIs(b: seq<byte>, r: IpAddressRange, t: seq<byte>)
    requires RangeIs(b, r)
    ensures ReadRange(b + t) == Got(r, t)
  {
    hide ReadFamily, ReadAddress;
    var family :| IsAddress(family, r.start) && IsAddress(family, r.end)
                  && b == [family] + r.start + r.end + [r.protocol];
    var s3 := [r.protocol] + t;
    var s2 := r.end + s3;
    var s1 := r.start + s2;
    assert b + t == [family] + s1;
    ReadFamilyIs(family, s1);
    ReadAddressIs(family, r.start, s2);
    ReadAddressIs(family, r.end, s3);
    assert s3[0] == r.protocol && s3[1..] == t;
  }

  lemma RangeWasRead(s: seq<byte>) returns (b: seq<byte>)
    requires ReadRange(s).Got?
    ensures RangeIs(b, ReadRange(s).value) && s == b + ReadRange(s).rest
  {
    hide ReadFamily, ReadAddress;
    TakenFamily(s);
    var family: byte, s1 := ReadFamily(s).value, ReadFamily(s).rest;
    TakenAddress(s1, family);
    var s2 := ReadAddress(s1, family).rest;
    TakenAddress(s2, family);
    var s3 := ReadAddress(s2, family).rest;
    assert s3 == [s3[0]] + s3[1..];
    b := [family] + ReadAddress(s1, family).value + ReadAddress(s2, family).value + [s3[0]];
    assert s == b + s3[1..];
  }

  // ---------------------------------------------------------------------------------------------
  // Lists of entries

  lemma {:induction false} PartsAreRead(parts: seq<seq<byte>>, ps: seq<PrefixWithId>)
    requires |parts| == |ps| && forall i :: 0 <= i < |ps| ==> PrefixIs(parts[i], ps[i])
    ensures ReadPrefixes(Concat(parts)) == Some(ps)
    decreases |ps|
  {
    hide PrefixIs, ReadPrefix;
    if ps != [] {
      var rest := Concat(parts[1..]);
      ReadPrefixIs(parts[0], ps[0], rest);
      PartsAreRead(parts[1..], ps[1..]);
      assert Concat(parts) == parts[0] + rest;
      assert ps == [ps[0]] + ps[1..];
    }
  }

  lemma {:induction false} PartsWereRead(s: seq<byte>) returns (parts: seq<seq<byte>>)
    requires ReadPrefixes(s).Some?
    ensures var ps := ReadPrefixes(s).value;
            |parts| == |ps| && Concat(parts) == s && forall i :: 0 <= i < |ps| ==> PrefixIs(parts[i], ps[i])
    decreases |s|
  {
    hide PrefixIs, ReadPrefix;
    if s == [] {
      parts := [];
    } else {
      var b := PrefixWasRead(s);
      var others := PartsWereRead(ReadPrefix(s).rest);
      parts := [b] + others;
      assert parts[1..] == others;
    }
  }

  /** A list of prefixes is accepted if and only if it is a concatenation of entries, and it is these. */
  lemma PrefixesExactly(s: seq<byte>, ps: seq<PrefixWithId>)
    ensures ReadPrefixes(s) == Some(ps) <==> PrefixesAre(s, ps)
  {
    hide PrefixIs, ReadPrefixes;
    if ReadPrefixes(s) == Some(ps) {
      var parts := PartsWereRead(s);
    }
    if PrefixesAre(s, ps) {
      var parts: seq<seq<byte>> :|
        |parts| == |ps| && Concat(parts) == s && forall i :: 0 <= i < |ps| ==> PrefixIs(parts[i], ps[i]);
      PartsAreRead(parts, ps);
    }
  }

  lemma {:induction false} RangePartsAreRead(parts: seq<seq<byte>>, rs: seq<IpAddressRange>)
    requires |parts| == |rs| && forall i :: 0 <= i < |rs| ==> RangeIs(parts[i], rs[i])
    ensures ReadRanges(Concat(parts)) == Some(rs)
    decreases |rs|
  {
    hide RangeIs, ReadRange;
    if rs != [] {
      var rest := Concat(parts[1..]);
      ReadRangeIs(parts[0], rs[0], rest);
      RangePartsAreRead(parts[1..], rs[1..]);
      assert Concat(parts) == parts[0] + rest;
      assert rs == [rs[0]] + rs[1..];
    }
  }

  lemma {:induction false} RangePartsWereRead(s: seq<byte>) returns (parts: seq<seq<byte>>)
    requires ReadRanges(s).Some?
    ensures var rs := ReadRanges(s).value;
            |parts| == |rs| && Concat(parts) == s && forall i :: 0 <= i < |rs| ==> RangeIs(parts[i], rs[i])
    decreases |s|
  {
    hide RangeIs, ReadRange;
    if s == [] {
      parts := [];
    } else {
      var b := RangeWasRead(s);
      var others := RangePartsWereRead(ReadRange(s).rest);
      parts := [b] + others;
      assert parts[1..] == others;
    }
  }

  /** The same for a list of address ranges. */
  lemma RangesExactly(s: seq<byte>, rs: seq<IpAddressRange>)
    ensures ReadRanges(s) == Some(rs) <==> RangesAre(s, rs)
  {
    hide RangeIs, ReadRanges;
    if ReadRanges(s) == Some(rs) {
      var parts := RangePartsWereRead(s);
    }
    if RangesAre(s, rs) {
      var parts: seq<seq<byte>> :|
        |parts| == |rs| && Concat(parts) == s && forall i :: 0 <= i < |rs| ==> RangeIs(parts[i], rs[i]);
      RangePartsAreRead(parts, rs);
    }
  }

  // ---------------------------------------------------------------------------------------------
  // Every kind of capsule

  /** A stream identifier of 32 bits and another number; whatever is behind them does not count. */
  ghost predicate PairIs(s: seq<byte>, id: nat, n: nat) {
    id < 0x1_0000_0000 &&
    exists b1: seq<byte>, b2: seq<byte>, rest: seq<byte> ::
      IsVarint(b1, id) && IsVarint(b2, n) && s == b1 + (b2 + rest)
  }

  /** No address, or a family, an address of it and a port. */
  ghost predicate PeerIs(s: seq<byte>, peer: Option<SocketAddress>) {
    match peer
    case None => s == [0]
    case Some(SocketAddress(host, port)) =>
      exists family: byte, p: seq<byte> ::
        IsAddress(family, host) && |p| == 2 && FromBytes(p) == port && s == [family] + host + p
  }

  /** The payload of a capsule of this kind, by the numbers and layouts of the specifications. */
  ghost predicate PayloadIs(kind: nat, s: seq<byte>, c: Capsule) {
    match c
    case Datagram(p) => kind == 0x00 && s == p
    case LegacyDatagram(p) => kind == 0xff37a0 && s == p
    case LegacyDatagramWithoutContext(p) => kind == 0xff37a5 && s == p
    case CloseSession(code, message) =>
      kind == 0x2843 && exists b: seq<byte> :: |b| == 4 && FromBytes(b) == code && s == b + message
    case DrainSession => kind == 0x78ae
    case AddressAssign(ps) => kind == 0x01 && PrefixesAre(s, ps)
    case AddressRequest(ps) => kind == 0x02 && PrefixesAre(s, ps)
    case RouteAdvertisement(rs) => kind == 0x03 && RangesAre(s, rs)
    case StreamData(id, data, fin) =>
      && kind == (if fin then 0x190b4d3c else 0x190b4d3b) && id < 0x1_0000_0000
      && exists b: seq<byte> :: IsVarint(b, id) && s == b + data
    case ResetStream(id, code) => kind == 0x190b4d39 && PairIs(s, id, code)
    case StopSending(id, code) => kind == 0x190b4d3a && PairIs(s, id, code)
    case MaxStreamData(id, limit) => kind == 0x190b4d3e && PairIs(s, id, limit)
    case MaxStreams(unidirectional, limit) =>
      && kind == (if unidirectional then 0x190b4d40 else 0x190b4d3f)
      && exists b: seq<byte>, rest: seq<byte> :: IsVarint(b, limit) && s == b + rest
    case CompressionAssign(id, peer) =>
      && kind == 0x1C0FE323
      && exists b: seq<byte>, rest: seq<byte> :: IsVarint(b, id) && PeerIs(rest, peer) && s == b + rest
    case CompressionClose(id) => kind == 0x1C0FE324 && IsVarint(s, id)
    case Unknown(k, p) =>
      && k == kind && s == p
      && kind !in {0x00, 0x01, 0x02, 0x03, 0x2843, 0x78ae, 0xff37a0, 0xff37a5, 0x1C0FE323, 0x1C0FE324,
                   0x190b4d39, 0x190b4d3a, 0x190b4d3b, 0x190b4d3c, 0x190b4d3e, 0x190b4d3f, 0x190b4d40}
  }

  lemma CloseExactly(s: seq<byte>, c: Capsule)
    ensures ReadClose(s) == Some(c) <==> c.CloseSession? && PayloadIs(0x2843, s, c)
  {
    hide FromBytes;
    if ReadClose(s) == Some(c) {
      assert s == s[..4] + s[4..];
    }
    if c.CloseSession? && PayloadIs(0x2843, s, c) {
      var b: seq<byte> :| |b| == 4 && FromBytes(b) == c.errorCode && s == b + c.message;
      assert s[..4] == b && s[4..] == c.message;
    }
  }

  lemma StreamIdExactly(b: seq<byte>, id: nat, rest: seq<byte>)
    requires b != []
    ensures ReadStreamId(b + rest) == Got(id, rest) <==> id < 0x1_0000_0000 && IsVarint(b, id)
  {
    hide Read, IsVarint;
    ReadExactly(b, id, rest);
    if IsVarint(b, id) {
      assert Read(b + rest) == Got(id, rest);
    }
  }

  lemma PairExactly(s: seq<byte>, id: nat, n: nat)
    ensures ReadStreamPair(s) == Some((id, n)) <==> PairIs(s, id, n)
  {
    hide Read, IsVarint;
    if ReadStreamPair(s) == Some((id, n)) {
      var b1 := ReadIsVarint(s);
      var b2 := ReadIsVarint(Read(s).rest);
    }
    if PairIs(s, id, n) {
      var b1: seq<byte>, b2: seq<byte>, rest: seq<byte> :| IsVarint(b1, id) && IsVarint(b2, n) && s == b1 + (b2 + rest);
      VarintNotEmpty(b1, id);
      VarintNotEmpty(b2, n);
      ReadExactly(b1, id, b2 + rest);
      ReadExactly(b2, n, rest);
    }
  }

  lemma PeerExactly(id: nat, s: seq<byte>, c: Capsule)
    ensures ReadPeer(id, s) == Some(c) <==> c.CompressionAssign? && c.contextId == id && PeerIs(s, c.peer)
  {
    hide FromBytes, ReadFamily, ReadAddress;
    if ReadPeer(id, s) == Some(c) {
      if s[0] == 0 {
        assert s == [s[0]];
      } else {
        TakenFamily(s);
        var family: byte, s1 := ReadFamily(s).value, ReadFamily(s).rest;
        TakenAddress(s1, family);
        var s2 := ReadAddress(s1, family).rest;
        assert s2[..2] == s2;
        assert s == [family] + ReadAddress(s1, family).value + s2;
      }
    }
    if c.CompressionAssign? && c.contextId == id && PeerIs(s, c.peer) && c.peer.Some? {
      var SocketAddress(host, port) := c.peer.value;
      var family: byte, p: seq<byte> :|
        IsAddress(family, host) && |p| == 2 && FromBytes(p) == port && s == [family] + host + p;
      assert s == [family] + (host + p) && s[0] == family;
      ReadFamilyIs(family, host + p);
      ReadAddressIs(family, host, p);
      assert p[..2] == p && p[2..] == [];
    }
  }

  lemma CompressionExactly(kind: nat, s: seq<byte>, c: Capsule)
    requires kind == 0x1C0FE323 || kind == 0x1C0FE324
    ensures ReadCompression(kind, s) == Some(c) <==> PayloadIs(kind, s, c)
  {
    hide Read, IsVarint, ReadPeer, PeerIs, PrefixesAre, RangesAre, PairIs;
    if ReadCompression(kind, s) == Some(c) {
      var b := ReadIsVarint(s);
      var Got(id, rest) := Read(s);
      PeerExactly(id, rest, c);
      assert rest == [] ==> b + rest == b;
    }
    if PayloadIs(kind, s, c) {
      if kind == 0x1C0FE323 {
        var b: seq<byte>, rest: seq<byte> :| IsVarint(b, c.contextId) && PeerIs(rest, c.peer) && s == b + rest;
        VarintNotEmpty(b, c.contextId);
        ReadExactly(b, c.contextId, rest);
        PeerExactly(c.contextId, rest, c);
      } else {
        VarintNotEmpty(s, c.contextId);
        ReadExactly(s, c.contextId, []);
        assert s + [] == s;
      }
    }
  }

  lemma StreamExactly(kind: nat, s: seq<byte>, c: Capsule)
    requires kind in {0x190b4d3b, 0x190b4d3c, 0x190b4d3f, 0x190b4d40}
    ensures ReadWebTransport(kind, s) == Some(c) <==> PayloadIs(kind, s, c)
  {
    hide Read, IsVarint, PrefixesAre, RangesAre, PairIs;
    if ReadWebTransport(kind, s) == Some(c) {
      var b := ReadIsVarint(s);
    }
    if PayloadIs(kind, s, c) {
      if c.StreamData? {
        var b: seq<byte> :| IsVarint(b, c.streamId) && s == b + c.data;
        VarintNotEmpty(b, c.streamId);
        ReadExactly(b, c.streamId, c.data);
      } else {
        var b: seq<byte>, rest: seq<byte> :| IsVarint(b, c.limit) && s == b + rest;
        VarintNotEmpty(b, c.limit);
        ReadExactly(b, c.limit, rest);
      }
    }
  }

  lemma PairsExactly(kind: nat, s: seq<byte>, c: Capsule)
    requires kind in {0x190b4d39, 0x190b4d3a, 0x190b4d3e}
    ensures ReadWebTransport(kind, s) == Some(c) <==> PayloadIs(kind, s, c)
  {
    hide PrefixesAre, RangesAre, PairIs, ReadStreamPair;
    if ReadStreamPair(s).Some? {
      PairExactly(s, ReadStreamPair(s).value.0, ReadStreamPair(s).value.1);
    }
    match c
    case ResetStream(id, n) => PairExactly(s, id, n);
    case StopSending(id, n) => PairExactly(s, id, n);
    case MaxStreamData(id, n) => PairExactly(s, id, n);
    case _ =>
  }

  lemma IpExactly(kind: nat, s: seq<byte>, c: Capsule)
    requires kind in {1, 2, 3}
    ensures ReadIp(kind, s) == Some(c) <==> PayloadIs(kind, s, c)
  {
    hide PrefixesAre, RangesAre, ReadPrefixes, ReadRanges;
    match c
    case AddressAssign(ps) => PrefixesExactly(s, ps);
    case AddressRequest(ps) => PrefixesExactly(s, ps);
    case RouteAdvertisement(rs) => RangesExactly(s, rs);
    case _ =>
  }

  /** A payload is accepted if and only if it is laid out as its kind demands, and as what it holds. */
  lemma PayloadExactly(kind: nat, s: seq<byte>, c: Capsule)
    ensures ParsePayload(kind, s) == Some(c) <==> PayloadIs(kind, s, c)
  {
    hide ReadClose, ReadIp, ReadCompression, ReadWebTransport, PrefixesAre, RangesAre, PairIs, PeerIs, IsVarint;
    if kind == 0x2843 {
      CloseExactly(s, c);
    } else if kind in {1, 2, 3} {
      IpExactly(kind, s, c);
    } else if kind in {0x1C0FE323, 0x1C0FE324} {
      CompressionExactly(kind, s, c);
    } else if kind in {0x190b4d3b, 0x190b4d3c, 0x190b4d3f, 0x190b4d40} {
      StreamExactly(kind, s, c);
    } else if kind in {0x190b4d39, 0x190b4d3a, 0x190b4d3e} {
      PairsExactly(kind, s, c);
    }
  }

  // ---------------------------------------------------------------------------------------------
  // Frames

  /** A kind, the length of the payload, and the payload. */
  ghost predicate FrameIs(b: seq<byte>, kind: nat, payload: seq<byte>) {
    exists k: seq<byte>, l: seq<byte> :: IsVarint(k, kind) && IsVarint(l, |payload|) && b == k + (l + payload)
  }

  lemma FrameIsRead(b: seq<byte>, kind: nat, payload: seq<byte>, rest: seq<byte>)
    requires FrameIs(b, kind, payload)
    ensures Read(b + rest).Got? && Read(b + rest).value == kind
    ensures ReadString(Read(b + rest).rest) == Got(payload, rest)
  {
    hide Read, IsVarint;
    var k: seq<byte>, l: seq<byte> :| IsVarint(k, kind) && IsVarint(l, |payload|) && b == k + (l + payload);
    VarintNotEmpty(k, kind);
    VarintNotEmpty(l, |payload|);
    var s := l + (payload + rest);
    assert b + rest == k + s;
    ReadExactly(k, kind, s);
    ReadExactly(l, |payload|, payload + rest);
    assert (payload + rest)[..|payload|] == payload && (payload + rest)[|payload|..] == rest;
  }

  lemma FrameWasRead(s: seq<byte>) returns (b: seq<byte>)
    requires Read(s).Got? && ReadString(Read(s).rest).Got?
    ensures var Got(payload, rest) := ReadString(Read(s).rest);
            FrameIs(b, Read(s).value, payload) && s == b + rest
  {
    hide Read, IsVarint;
    var k := ReadIsVarint(s);
    var s1 := Read(s).rest;
    var l := ReadIsVarint(s1);
    var Got(payload, rest) := ReadString(s1);
    b := k + (l + payload);
    assert s == b + rest;
  }

  /** The next capsule is taken if and only if a frame with its payload is in front. */
  lemma NextCapsuleExactly(s: seq<byte>, c: Capsule, rest: seq<byte>)
    ensures NextCapsule(s) == Next(c, rest)
            <==> exists b: seq<byte>, kind: nat, payload: seq<byte> ::
                   FrameIs(b, kind, payload) && PayloadIs(kind, payload, c) && s == b + rest
  {
    hide Read, ReadString, ParsePayload, FrameIs, PayloadIs;
    if NextCapsule(s) == Next(c, rest) {
      var b := FrameWasRead(s);
      PayloadExactly(Read(s).value, ReadString(Read(s).rest).value, c);
    }
    forall b: seq<byte>, kind: nat, payload: seq<byte>
      | FrameIs(b, kind, payload) && PayloadIs(kind, payload, c) && s == b + rest
      ensures NextCapsule(s) == Next(c, rest)
    {
      FrameIsRead(b, kind, payload, rest);
      PayloadExactly(kind, payload, c);
    }
  }

  /** The parser waits if and only if no frame is complete, and gives up if and only if a frame is complete
      whose payload is that of no capsule. */
  lemma NoCapsuleExactly(s: seq<byte>)
    ensures NextCapsule(s).NeedMore?
            <==> forall n: nat, kind: nat, payload: seq<byte> :: n <= |s| ==> !FrameIs(s[..n], kind, payload)
    ensures NextCapsule(s).Bad?
            <==> exists n: nat, kind: nat, payload: seq<byte> ::
                   n <= |s| && FrameIs(s[..n], kind, payload) && forall c :: !PayloadIs(kind, payload, c)
  {
    hide Read, ReadString, ParsePayload, FrameIs, PayloadIs;
    if Read(s).Got? && ReadString(Read(s).rest).Got? {
      var kind, payload := Read(s).value, ReadString(Read(s).rest).value;
      var b := FrameWasRead(s);
      assert s[..|b|] == b;
      forall c ensures ParsePayload(kind, payload) == Some(c) <==> PayloadIs(kind, payload, c) {
        PayloadExactly(kind, payload, c);
      }
    }
    forall n: nat, kind: nat, payload: seq<byte> | n <= |s| && FrameIs(s[..n], kind, payload)
      ensures Read(s).Got? && Read(s).value == kind
      ensures ReadString(Read(s).rest).Got? && ReadString(Read(s).rest).value == payload
    {
      FrameIsRead(s[..n], kind, payload, s[n..]);
      assert s[..n] + s[n..] == s;
    }
  }

  // ---------------------------------------------------------------------------------------------
  // A whole run

  ghost predicate CapsuleIs(b: seq<byte>, c: Capsule) {
    exists kind: nat, payload: seq<byte> :: FrameIs(b, kind, payload) && PayloadIs(kind, payload, c)
  }

  /** No frame is complete. */
  ghost predicate Incomplete(s: seq<byte>) {
    forall n: nat, kind: nat, payload: seq<byte> :: n <= |s| ==> !FrameIs(s[..n], kind, payload)
  }

  lemma NextCapsuleIs(s: seq<byte>) returns (b: seq<byte>)
    requires NextCapsule(s).Next?
    ensures CapsuleIs(b, NextCapsule(s).capsule) && s == b + NextCapsule(s).rest
  {
    hide NextCapsule, FrameIs, PayloadIs;
    var c, rest := NextCapsule(s).capsule, NextCapsule(s).rest;
    NextCapsuleExactly(s, c, rest);
    var kind: nat, payload: seq<byte>;
    b, kind, payload :| FrameIs(b, kind, payload) && PayloadIs(kind, payload, c) && s == b + rest;
  }

  lemma Stops(s: seq<byte>)
    requires !NextCapsule(s).Next?
    ensures NextCapsule(s).NeedMore? <==> Incomplete(s)
    ensures forall b, c :: CapsuleIs(b, c) ==> !(b <= s)
  {
    hide NextCapsule, FrameIs, PayloadIs;
    NoCapsuleExactly(s);
    forall b: seq<byte>, c | CapsuleIs(b, c) && b <= s
      ensures false
    {
      var kind: nat, payload: seq<byte> :| FrameIs(b, kind, payload) && PayloadIs(kind, payload, c);
      assert s == b + s[|b|..];
      NextCapsuleExactly(s, c, s[|b|..]);
    }
  }

  /** Each of the parts is its capsule. */
  ghost predicate CapsulesAre(parts: seq<seq<byte>>, cs: seq<Capsule>) {
    |parts| == |cs| && forall i :: 0 <= i < |cs| ==> CapsuleIs(parts[i], cs[i])
  }

  /** The visitor takes all of them but possibly the last. */
  ghost predicate TakenSoFar(h: Visitor, delivered: seq<Capsule>, cs: seq<Capsule>) {
    forall i :: 0 < i < |cs| ==> h(delivered + cs[..i])
  }

  lemma CapsulesCons(b: seq<byte>, c: Capsule, parts: seq<seq<byte>>, cs: seq<Capsule>, tail: seq<byte>)
    requires CapsuleIs(b, c) && CapsulesAre(parts, cs)
    ensures CapsulesAre([b] + parts, [c] + cs)
    ensures Concat([b] + parts) + tail == b + (Concat(parts) + tail)
  {
    hide CapsuleIs;
    assert ([b] + parts)[1..] == parts;
  }

  lemma TakenCons(h: Visitor, delivered: seq<Capsule>, c: Capsule, cs: seq<Capsule>)
    requires h(delivered + [c]) && TakenSoFar(h, delivered + [c], cs)
    ensures TakenSoFar(h, delivered, [c] + cs) && delivered + ([c] + cs) == delivered + [c] + cs
  {
    var all := [c] + cs;
    forall i | 0 < i < |all| ensures h(delivered + all[..i]) {
      assert delivered + all[..i] == delivered + [c] + cs[..i - 1];
      assert i == 1 ==> cs[..0] == [] && delivered + [c] + [] == delivered + [c];
    }
  }

  /** Nothing is taken. */
  lemma NoneTaken(h: Visitor, delivered: seq<Capsule>, s: seq<byte>)
    ensures CapsulesAre([], []) && TakenSoFar(h, delivered, []) && Concat<byte>([]) + s == s
    ensures delivered + [] == delivered
  {
    hide CapsuleIs;
  }

  /** One capsule is taken. */
  lemma OneTaken(h: Visitor, delivered: seq<Capsule>, b: seq<byte>, c: Capsule, rest: seq<byte>)
    requires CapsuleIs(b, c)
    ensures CapsulesAre([b], [c]) && TakenSoFar(h, delivered, [c]) && Concat([b]) + rest == b + rest
  {
    hide CapsuleIs;
    assert [b][1..] == [];
  }

  /** Whatever the bytes: the capsules in front are delivered in order, up to the first that is refused;
      otherwise up to an incomplete frame, which is kept, or to a frame of no capsule, which is an error. */
  lemma {:induction false} RunTakes(h: Visitor, delivered: seq<Capsule>, s: seq<byte>)
    returns (parts: seq<seq<byte>>, cs: seq<Capsule>, tail: seq<byte>)
    ensures CapsulesAre(parts, cs) && Concat(parts) + tail == s && TakenSoFar(h, delivered, cs)
    ensures Run(h, delivered, s)
         == if cs != [] && !h(delivered + cs) then State([], delivered + cs, true)
            else if Incomplete(tail) then State(tail, delivered + cs, false)
            else State([], delivered + cs, true)
    ensures (cs == [] || h(delivered + cs)) && !Incomplete(tail) ==> forall b, c :: CapsuleIs(b, c) ==> !(b <= tail)
    decreases |s|
  {
    hide NextCapsule, CapsuleIs, Incomplete, CapsulesAre, TakenSoFar, Concat;
    var r := NextCapsule(s);
    if r.Next? {
      var b := NextCapsuleIs(s);
      var c := r.capsule;
      if h(delivered + [c]) {
        var parts', cs', tail' := RunTakes(h, delivered + [c], r.rest);
        parts, cs, tail := [b] + parts', [c] + cs', tail';
        CapsulesCons(b, c, parts', cs', tail');
        TakenCons(h, delivered, c, cs');
        assert cs' == [] ==> delivered + [c] + cs' == delivered + [c];
      } else {
        parts, cs, tail := [b], [c], r.rest;
        OneTaken(h, delivered, b, c, r.rest);
      }
    } else {
      parts, cs, tail := [], [], s;
      NoneTaken(h, delivered, s);
      Stops(s);
    }
  }
}
