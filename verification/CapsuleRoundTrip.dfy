/** Capsules come back from the wire exactly if they are well formed. */
module CapsuleRoundTrip {
  import opened Bytes
  import opened VarInt62
  import opened WireSerialization
  import opened Capsules

  // ---------------------------------------------------------------------------------------------
  // The bytes of short lists of fields

  lemma OneField(a: Wire)
    ensures AllBytes([a]) == BytesOnWire(a)
  {
    hide BytesOnWire;
    assert [a][1..] == [];
    if BytesOnWire(a).Some? {
      assert BytesOnWire(a).value + [] == BytesOnWire(a).value;
    }
  }

  lemma MoreFields(a: Wire, ws: seq<Wire>)
    ensures AllBytes([a] + ws) == Joined(BytesOnWire(a), AllBytes(ws))
  {
    hide BytesOnWire;
    assert ([a] + ws)[1..] == ws;
  }

  lemma TwoFields(a: Wire, b: Wire)
    ensures AllBytes([a, b]) == Joined(BytesOnWire(a), BytesOnWire(b))
  {
    hide BytesOnWire;
    OneField(b);
    MoreFields(a, [b]);
    assert [a, b] == [a] + [b];
  }

  lemma ThreeFields(a: Wire, b: Wire, c: Wire)
    ensures AllBytes([a, b, c]) == Joined(BytesOnWire(a), Joined(BytesOnWire(b), BytesOnWire(c)))
  {
    hide BytesOnWire, AllBytes;
    TwoFields(b, c);
    MoreFields(a, [b, c]);
    assert [a, b, c] == [a] + [b, c];
  }

  lemma FourFields(a: Wire, b: Wire, c: Wire, d: Wire)
    ensures AllBytes([a, b, c, d])
         == Joined(BytesOnWire(a), Joined(BytesOnWire(b), Joined(BytesOnWire(c), BytesOnWire(d))))
  {
    hide BytesOnWire, AllBytes;
    ThreeFields(b, c, d);
    MoreFields(a, [b, c, d]);
    assert [a, b, c, d] == [a] + [b, c, d];
  }

  lemma OneByte(v: byte)
    ensures ToBytes(v, 1) == [v] && FromBytes([v]) == v
  {
    assert ToBytes(v / 256, 0) == [];
    assert [v][..0] == [] && FromBytes([]) == 0;
  }

  lemma ReadUIntBack(v: nat, size: nat, tail: seq<byte>)
    requires v < Pow256(size)
    ensures ReadUInt(ToBytes(v, size) + tail, size) == Got(v, tail)
  {
    FromToBytes(v, size);
    var b := ToBytes(v, size);
    assert (b + tail)[..size] == b && (b + tail)[size..] == tail;
  }

  lemma TakeBack(a: seq<byte>, tail: seq<byte>)
    ensures Take(a + tail, |a|) == Got(a, tail)
  {
    assert (a + tail)[..|a|] == a && (a + tail)[|a|..] == tail;
  }

  // ---------------------------------------------------------------------------------------------
  // Addresses

  lemma ReadFamilyBack(a: Address, tail: seq<byte>)
    requires a != []
    ensures ReadFamily([Family(a)] + tail) == Got(Family(a) as int, tail)
    ensures AddressSize(Family(a)) == |a|
  {
    OneByte(Family(a));
    TakeBack([Family(a)], tail);
  }

  function PrefixBytes(p: PrefixWithId): seq<byte>
    requires p.requestId < LIMIT
  {
    Encode(p.requestId) + ([Family(p.address)] + (p.address + [p.prefixLength]))
  }

  lemma PrefixOnWire(p: PrefixWithId)
    requires p.requestId < LIMIT
    ensures BytesOnWire(PrefixFields(p)) == Some(PrefixBytes(p))
  {
    var a, b, c, d := VarInt(p.requestId), UInt(Family(p.address), 1), Raw(p.address), UInt(p.prefixLength, 1);
    FourFields(a, b, c, d);
    OneByte(Family(p.address));
    OneByte(p.prefixLength);
    hide AllBytes, ToBytes, Encode, Family;
    assert BytesOnWire(PrefixFields(p)) == AllBytes([a, b, c, d]);
  }

  lemma ReadPrefixBack(p: PrefixWithId, tail: seq<byte>)
    requires GoodPrefix(p)
    ensures ReadPrefix(PrefixBytes(p) + tail) == Got(p, tail)
  {
    hide Read, Encode, ReadFamily, Family;
    var s3 := [p.prefixLength] + tail;
    var s2 := p.address + s3;
    var s1 := [Family(p.address)] + s2;
    assert PrefixBytes(p) + tail == Encode(p.requestId) + s1;
    ReadEncode(p.requestId, s1);
    ReadFamilyBack(p.address, s2);
    TakeBack(p.address, s3);
    assert s3[1..] == tail;
  }

  function PrefixesOnWire(ps: seq<PrefixWithId>): (r: seq<Wire>)
    ensures |r| == |ps| && forall i :: 0 <= i < |ps| ==> r[i] == PrefixFields(ps[i])
  {
    seq(|ps|, i requires 0 <= i < |ps| => PrefixFields(ps[i]))
  }

  lemma PrefixesOnWireStep(ps: seq<PrefixWithId>)
    requires ps != []
    ensures AllBytes(PrefixesOnWire(ps)) == Joined(BytesOnWire(PrefixFields(ps[0])), AllBytes(PrefixesOnWire(ps[1..])))
  {
    hide AllBytes, BytesOnWire, PrefixFields;
    MoreFields(PrefixFields(ps[0]), PrefixesOnWire(ps[1..]));
    assert PrefixesOnWire(ps) == [PrefixFields(ps[0])] + PrefixesOnWire(ps[1..]);
  }

  lemma ReadPrefixesStep(s: seq<byte>, p: PrefixWithId, tail: seq<byte>, ps: seq<PrefixWithId>)
    requires ReadPrefix(s) == Got(p, tail)
    requires ReadPrefixes(tail) == Some(ps)
    ensures ReadPrefixes(s) == Some([p] + ps)
  {
    assert s != [];
    hide ReadPrefix;
  }

  lemma {:induction false} PrefixesBack(ps: seq<PrefixWithId>)
    requires forall i :: 0 <= i < |ps| ==> GoodPrefix(ps[i])
    ensures AllBytes(PrefixesOnWire(ps)).Some?
    ensures ReadPrefixes(AllBytes(PrefixesOnWire(ps)).value) == Some(ps)
  {
    if ps == [] {
      assert PrefixesOnWire(ps) == [];
    } else {
      assert GoodPrefix(ps[0]) && ps[0].requestId < LIMIT;
      hide AllBytes, BytesOnWire, PrefixFields, GoodPrefix, ReadPrefix, ReadPrefixes, PrefixesOnWire, PrefixBytes;
      PrefixesBack(ps[1..]);
      PrefixOnWire(ps[0]);
      PrefixesOnWireStep(ps);
      var tail := AllBytes(PrefixesOnWire(ps[1..])).value;
      ReadPrefixBack(ps[0], tail);
      ReadPrefixesStep(PrefixBytes(ps[0]) + tail, ps[0], tail, ps[1..]);
      assert ps == [ps[0]] + ps[1..];
    }
  }

  function RangeBytes(r: IpAddressRange): seq<byte> {
    [Family(r.start)] + (r.start + (r.end + [r.protocol]))
  }

  lemma RangeOnWire(r: IpAddressRange)
    ensures BytesOnWire(RangeFields(r)) == Some(RangeBytes(r))
  {
    var a, b, c, d := UInt(Family(r.start), 1), Raw(r.start), Raw(r.end), UInt(r.protocol, 1);
    FourFields(a, b, c, d);
    OneByte(Family(r.start));
    OneByte(r.protocol);
    hide AllBytes, ToBytes, Family;
    assert BytesOnWire(RangeFields(r)) == AllBytes([a, b, c, d]);
  }

  lemma ReadRangeBack(r: IpAddressRange, tail: seq<byte>)
    requires GoodRange(r)
    ensures ReadRange(RangeBytes(r) + tail) == Got(r, tail)
  {
    hide ReadFamily, Family;
    var s3 := [r.protocol] + tail;
    var s2 := r.end + s3;
    var s1 := r.start + s2;
    assert RangeBytes(r) + tail == [Family(r.start)] + s1;
    ReadFamilyBack(r.start, s1);
    TakeBack(r.start, s2);
    TakeBack(r.end, s3);
    assert s3[1..] == tail;
  }

  function RangesOnWire(rs: seq<IpAddressRange>): (r: seq<Wire>)
    ensures |r| == |rs| && forall i :: 0 <= i < |rs| ==> r[i] == RangeFields(rs[i])
  {
    seq(|rs|, i requires 0 <= i < |rs| => RangeFields(rs[i]))
  }

  lemma RangesOnWireStep(rs: seq<IpAddressRange>)
    requires rs != []
    ensures AllBytes(RangesOnWire(rs)) == Joined(BytesOnWire(RangeFields(rs[0])), AllBytes(RangesOnWire(rs[1..])))
  {
    hide AllBytes, BytesOnWire, RangeFields;
    MoreFields(RangeFields(rs[0]), RangesOnWire(rs[1..]));
    assert RangesOnWire(rs) == [RangeFields(rs[0])] + RangesOnWire(rs[1..]);
  }

  lemma ReadRangesStep(s: seq<byte>, r: IpAddressRange, tail: seq<byte>, rs: seq<IpAddressRange>)
    requires ReadRange(s) == Got(r, tail)
    requires ReadRanges(tail) == Some(rs)
    ensures ReadRanges(s) == Some([r] + rs)
  {
    assert s != [];
    hide ReadRange;
  }

  lemma {:induction false} RangesBack(rs: seq<IpAddressRange>)
    requires forall i :: 0 <= i < |rs| ==> GoodRange(rs[i])
    ensures AllBytes(RangesOnWire(rs)).Some?
    ensures ReadRanges(AllBytes(RangesOnWire(rs)).value) == Some(rs)
  {
    if rs == [] {
      assert RangesOnWire(rs) == [];
    } else {
      assert GoodRange(rs[0]);
      hide AllBytes, BytesOnWire, RangeFields, GoodRange, ReadRange, ReadRanges, RangesOnWire, RangeBytes;
      RangesBack(rs[1..]);
      RangeOnWire(rs[0]);
      RangesOnWireStep(rs);
      var tail := AllBytes(RangesOnWire(rs[1..])).value;
      ReadRangeBack(rs[0], tail);
      ReadRangesStep(RangeBytes(rs[0]) + tail, rs[0], tail, rs[1..]);
      assert rs == [rs[0]] + rs[1..];
    }
  }

  // ---------------------------------------------------------------------------------------------
  // Payloads

  /** What it means for a payload to come back. */
  predicate ComesBack(c: Capsule) {
    AllBytes(Fields(c)).Some? && ParsePayload(TypeOf(c), AllBytes(Fields(c)).value) == Some(c)
  }

  lemma AddressesComeBack(c: Capsule)
    requires c.AddressAssign? || c.AddressRequest? || c.RouteAdvertisement?
    requires WellFormed(c)
    ensures ComesBack(c)
  {
    hide AllBytes, BytesOnWire, ReadPrefixes, ReadRanges, PrefixFields, RangeFields, GoodPrefix, GoodRange;
    if c.RouteAdvertisement? {
      RangesBack(c.ranges);
      assert Fields(c) == [Span(RangesOnWire(c.ranges))];
      SpanField(RangesOnWire(c.ranges));
    } else {
      PrefixesBack(c.prefixes);
      assert Fields(c) == [Span(PrefixesOnWire(c.prefixes))];
      SpanField(PrefixesOnWire(c.prefixes));
    }
  }

  lemma SpanField(ws: seq<Wire>)
    ensures AllBytes([Span(ws)]) == AllBytes(ws)
  {
    OneField(Span(ws));
  }

  lemma StreamPairComesBack(id: nat, n: nat)
    requires id < UINT32_LIMIT && n < LIMIT
    ensures AllBytes([VarInt(id), VarInt(n)]).Some?
    ensures ReadStreamPair(AllBytes([VarInt(id), VarInt(n)]).value) == Some((id, n))
  {
    hide AllBytes, Read, Encode;
    TwoFields(VarInt(id), VarInt(n));
    ReadEncode(id, Encode(n));
    ReadEncode(n, []);
    assert Encode(n) + [] == Encode(n);
  }

  lemma StreamsComeBack(c: Capsule)
    requires c.StreamData? || c.ResetStream? || c.StopSending? || c.MaxStreamData? || c.MaxStreams?
    requires WellFormed(c)
    ensures ComesBack(c)
  {
    hide AllBytes, Read, Encode, ReadStreamPair;
    if c.StreamData? {
      TwoFields(VarInt(c.streamId), Raw(c.data));
      ReadEncode(c.streamId, c.data);
    } else if c.MaxStreams? {
      OneField(VarInt(c.limit));
      ReadEncode(c.limit, []);
      assert Encode(c.limit) + [] == Encode(c.limit);
    } else {
      StreamPairComesBack(c.streamId, if c.MaxStreamData? then c.limit else c.errorCode);
    }
  }

  lemma CompressionComesBack(c: Capsule)
    requires c.CompressionAssign? || c.CompressionClose?
    requires WellFormed(c)
    ensures ComesBack(c)
  {
    hide AllBytes, Read, Encode, PeerFields, ReadPeer;
    if c.CompressionClose? {
      OneField(VarInt(c.contextId));
      ReadEncode(c.contextId, []);
      assert Encode(c.contextId) + [] == Encode(c.contextId);
    } else {
      MoreFields(VarInt(c.contextId), PeerFields(c.peer));
      PeerComesBack(c.contextId, c.peer);
      ReadEncode(c.contextId, AllBytes(PeerFields(c.peer)).value);
    }
  }

  lemma PeerComesBack(id: nat, peer: Option<SocketAddress>)
    requires peer.Some? ==> peer.value.host != [] && peer.value.port < 0x1_0000
    ensures AllBytes(PeerFields(peer)).Some?
    ensures ReadPeer(id, AllBytes(PeerFields(peer)).value) == Some(CompressionAssign(id, peer))
  {
    match peer
    case None =>
      OneField(UInt(0, 1));
      OneByte(0);
    case Some(SocketAddress(host, port)) =>
      ThreeFields(UInt(Family(host), 1), Raw(host), UInt(port, 2));
      OneByte(Family(host));
      PeerBytesComeBack(id, host, port);
  }

  lemma PeerBytesComeBack(id: nat, host: Address, port: nat)
    requires host != [] && port < 0x1_0000
    ensures ReadPeer(id, [Family(host)] + (host + ToBytes(port, 2)))
         == Some(CompressionAssign(id, Some(SocketAddress(host, port))))
  {
    PowersOf256();
    ReadUIntBack(port, 2, []);
    assert ToBytes(port, 2) + [] == ToBytes(port, 2);
    assert Family(host) != 0;
    hide ToBytes, ReadUInt, Family, ReadFamily;
    ReadFamilyBack(host, host + ToBytes(port, 2));
    TakeBack(host, ToBytes(port, 2));
  }

  lemma CloseComesBack(c: Capsule)
    requires c.CloseSession? && WellFormed(c)
    ensures ComesBack(c)
  {
    hide AllBytes, ToBytes;
    PowersOf256();
    TwoFields(UInt(c.errorCode, 4), Raw(c.message));
    ReadUIntBack(c.errorCode, 4, c.message);
  }

  lemma RawComesBack(c: Capsule)
    requires c.Datagram? || c.LegacyDatagram? || c.LegacyDatagramWithoutContext? || c.Unknown?
    requires WellFormed(c)
    ensures ComesBack(c)
  {
    hide AllBytes;
    OneField(Raw(c.payload));
  }

  /** Every well-formed capsule has a payload that is parsed to the same capsule. */
  lemma PayloadComesBack(c: Capsule)
    requires WellFormed(c)
    ensures ComesBack(c)
  {
    if c.DrainSession? {
      assert AllBytes([]) == Some([]);
    } else {
      hide ComesBack, WellFormed;
      if c.Datagram? || c.LegacyDatagram? || c.LegacyDatagramWithoutContext? || c.Unknown? {
        RawComesBack(c);
      } else if c.CloseSession? {
        CloseComesBack(c);
      } else if c.CompressionAssign? || c.CompressionClose? {
        CompressionComesBack(c);
      } else if c.AddressAssign? || c.AddressRequest? || c.RouteAdvertisement? {
        AddressesComeBack(c);
      } else {
        StreamsComeBack(c);
      }
    }
  }

  // ---------------------------------------------------------------------------------------------
  // What is parsed is well formed

  lemma FromBytesBound(s: seq<byte>)
    ensures FromBytes(s) < Pow256(|s|)
  {
    ToFromBytes(s);
  }

  lemma ReadBound(s: seq<byte>)
    ensures Read(s).Got? ==> Read(s).value < LIMIT
  {
    if Read(s).Got? {
      EncodeIsShortest(s);
    }
  }

  lemma ReadPrefixGood(s: seq<byte>)
    ensures ReadPrefix(s).Got? ==> GoodPrefix(ReadPrefix(s).value)
  {
    hide Read;
    ReadBound(s);
  }

  lemma {:induction false} ReadPrefixesGood(s: seq<byte>)
    ensures ReadPrefixes(s).Some? ==>
              forall i :: 0 <= i < |ReadPrefixes(s).value| ==> GoodPrefix(ReadPrefixes(s).value[i])
    decreases |s|
  {
    hide ReadPrefix, GoodPrefix;
    ReadPrefixGood(s);
    if s != [] && ReadPrefix(s).Got? {
      ReadPrefixesGood(ReadPrefix(s).rest);
    }
  }

  lemma ReadRangeGood(s: seq<byte>)
    ensures ReadRange(s).Got? ==> GoodRange(ReadRange(s).value)
  {
  }

  lemma {:induction false} ReadRangesGood(s: seq<byte>)
    ensures ReadRanges(s).Some? ==>
              forall i :: 0 <= i < |ReadRanges(s).value| ==> GoodRange(ReadRanges(s).value[i])
    decreases |s|
  {
    hide ReadRange, GoodRange;
    ReadRangeGood(s);
    if s != [] && ReadRange(s).Got? {
      ReadRangesGood(ReadRange(s).rest);
    }
  }

  lemma ReadWebTransportGood(kind: nat, s: seq<byte>)
    requires kind == WT_STREAM || kind == WT_STREAM_WITH_FIN || kind == WT_RESET_STREAM || kind == WT_STOP_SENDING
          || kind == WT_MAX_STREAM_DATA || kind == WT_MAX_STREAMS_BIDI || kind == WT_MAX_STREAMS_UNIDI
    ensures ReadWebTransport(kind, s).Some? ==>
              WellFormed(ReadWebTransport(kind, s).value) && TypeOf(ReadWebTransport(kind, s).value) == kind
  {
    hide Read;
    ReadBound(s);
    if Read(s).Got? {
      ReadBound(Read(s).rest);
    }
  }

  lemma ReadCompressionGood(kind: nat, s: seq<byte>)
    requires kind == COMPRESSION_ASSIGN || kind == COMPRESSION_CLOSE
    ensures ReadCompression(kind, s).Some? ==>
              WellFormed(ReadCompression(kind, s).value) && TypeOf(ReadCompression(kind, s).value) == kind
  {
    hide Read, ReadPeer;
    ReadBound(s);
    if Read(s).Got? {
      ReadPeerGood(Read(s).value, Read(s).rest);
    }
  }

  lemma ReadPeerGood(id: nat, s: seq<byte>)
    requires id < LIMIT
    ensures ReadPeer(id, s).Some? ==> WellFormed(ReadPeer(id, s).value) && ReadPeer(id, s).value.CompressionAssign?
  {
    if ReadPeer(id, s).Some? && s[0] != 0 {
      var s2 := ReadAddress(ReadFamily(s).rest, ReadFamily(s).value).rest;
      PowersOf256();
      FromBytesBound(s2[..2]);
    }
  }

  lemma ReadIpGood(kind: nat, s: seq<byte>)
    requires kind == ADDRESS_ASSIGN || kind == ADDRESS_REQUEST || kind == ROUTE_ADVERTISEMENT
    ensures ReadIp(kind, s).Some? ==> WellFormed(ReadIp(kind, s).value) && TypeOf(ReadIp(kind, s).value) == kind
  {
    hide ReadPrefixes, ReadRanges, GoodPrefix, GoodRange;
    ReadPrefixesGood(s);
    ReadRangesGood(s);
  }

  lemma ParsedIsWellFormed(kind: nat, s: seq<byte>)
    requires kind < LIMIT
    ensures ParsePayload(kind, s).Some? ==>
              WellFormed(ParsePayload(kind, s).value) && TypeOf(ParsePayload(kind, s).value) == kind
  {
    hide ReadIp, ReadCompression, ReadWebTransport;
    if kind == ADDRESS_ASSIGN || kind == ADDRESS_REQUEST || kind == ROUTE_ADVERTISEMENT {
      ReadIpGood(kind, s);
    } else if kind == COMPRESSION_ASSIGN || kind == COMPRESSION_CLOSE {
      ReadCompressionGood(kind, s);
    } else if kind == CLOSE_WEBTRANSPORT_SESSION {
      PowersOf256();
      if |s| >= 4 {
        FromBytesBound(s[..4]);
      }
    } else if IsKnown(kind) && ParsePayload(kind, s) == ReadWebTransport(kind, s) {
      if kind != DATAGRAM && kind != LEGACY_DATAGRAM && kind != LEGACY_DATAGRAM_WITHOUT_CONTEXT
         && kind != DRAIN_WEBTRANSPORT_SESSION {
        ReadWebTransportGood(kind, s);
      }
    }
  }

  /** Of the capsules that can be written, exactly the well-formed ones come back. */
  lemma ComesBackExactly(c: Capsule)
    requires Serialized(c).Some?
    ensures ComesBack(c) <==> WellFormed(c)
  {
    if ComesBack(c) {
      SerializedKind(c);
      hide ParsePayload, Fields, AllBytes, WellFormed, TypeOf, Serialized;
      ParsedIsWellFormed(TypeOf(c), AllBytes(Fields(c)).value);
    }
    if WellFormed(c) {
      PayloadComesBack(c);
    }
  }

  lemma SerializedKind(c: Capsule)
    requires Serialized(c).Some?
    ensures TypeOf(c) < LIMIT && TotalLength(Fields(c)) < LIMIT && AllBytes(Fields(c)).Some?
    ensures Serialized(c).value == Encode(TypeOf(c)) + (Encode(TotalLength(Fields(c))) + AllBytes(Fields(c)).value)
  {
    hide Fields, TypeOf, TotalLength, Encode;
    var kind, fields := TypeOf(c), Fields(c);
    var length := VarInt(TotalLength(fields));
    assert Framed(kind, fields) == [VarInt(kind)] + ([length] + fields);
    MoreFields(VarInt(kind), [length] + fields);
    MoreFields(length, fields);
  }
}
