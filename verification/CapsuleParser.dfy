/** The capsule parser: a buffer, a loop, and an error that stays. */
module CapsuleParser {
  import opened Bytes
  import opened VarInt62
  import opened DataReader
  import opened Capsules
  import opened CapsuleStream
  import opened Sequences

  // ---------------------------------------------------------------------------------------------
  // Payloads

  /** What a reader that returned `r` has read. */
  ghost predicate HasRead<T>(r: Option<T>, spec: Parsed<T>, rest: seq<byte>) {
    match r
    case None => spec.Short?
    case Some(v) => spec == Got(v, rest)
  }

  method ReadByte(reader: QuicheDataReader) returns (r: Option<byte>)
    requires reader.Valid()
    modifies reader
    ensures reader.Valid()
    ensures r.None? <==> old(reader.Remaining()) == []
    ensures r.Some? ==> old(reader.Remaining()) == [r.value] + reader.Remaining()
  {
    var ok, b := reader.ReadStringPiece(1);
    if !ok {
      return None;
    }
    return Some(b[0]);
  }

  method ReadAddressFamily(reader: QuicheDataReader) returns (r: Option<nat>)
    requires reader.Valid()
    modifies reader
    ensures reader.Valid() && HasRead(r, ReadFamily(old(reader.Remaining())), reader.Remaining())
  {
    ghost var s := reader.Remaining();
    var ok, family := reader.ReadUInt(1);
    if !ok || (family != 4 && family != 6) {
      return None;
    }
    assert Take(s, 1) == Got(s[..1], s[1..]);
    return Some(family);
  }

  method ReadIpAddress(reader: QuicheDataReader, family: nat) returns (r: Option<Address>)
    requires reader.Valid()
    modifies reader
    ensures reader.Valid() && HasRead(r, ReadAddress(old(reader.Remaining()), family), reader.Remaining())
  {
    var ok, a := reader.ReadStringPiece(if family == 4 then 4 else 16);
    if !ok {
      return None;
    }
    return Some(a);
  }

  method ReadOnePrefix(reader: QuicheDataReader) returns (r: Option<PrefixWithId>)
    requires reader.Valid()
    modifies reader
    ensures reader.Valid() && HasRead(r, ReadPrefix(old(reader.Remaining())), reader.Remaining())
  {
    hide Read, ReadFamily, ReadAddress;
    var ok, id := reader.ReadVarInt62();
    if !ok {
      return None;
    }
    var family := ReadAddressFamily(reader);
    if family.None? {
      return None;
    }
    var address := ReadIpAddress(reader, family.value);
    if address.None? {
      return None;
    }
    var length := ReadByte(reader);
    if length.None? {
      return None;
    }
    if length.value > 8 * |address.value| {
      return None;
    }
    return Some(PrefixWithId(id, address.value, length.value));
  }

  method ReadAllPrefixes(reader: QuicheDataReader) returns (r: Option<seq<PrefixWithId>>)
    requires reader.Valid()
    modifies reader
    ensures reader.Valid() && r == ReadPrefixes(old(reader.Remaining()))
  {
    hide ReadPrefix;
    var prefixes: seq<PrefixWithId> := [];
    ghost var all := ReadPrefixes(reader.Remaining());
    AfterNothing(all);
    var done := reader.IsDoneReading();
    while !done
      invariant reader.Valid() && done == (reader.Remaining() == [])
      invariant all == After(prefixes, ReadPrefixes(reader.Remaining()))
      decreases |reader.Remaining()|
    {
      ghost var s := reader.Remaining();
      var p := ReadOnePrefix(reader);
      if p.None? {
        return None;
      }
      assert ReadPrefixes(s) == After([p.value], ReadPrefixes(reader.Remaining()));
      AfterTwice(prefixes, [p.value], ReadPrefixes(reader.Remaining()));
      prefixes := prefixes + [p.value];
      done := reader.IsDoneReading();
    }
    assert prefixes + [] == prefixes;
    return Some(prefixes);
  }

  method ReadOneRange(reader: QuicheDataReader) returns (r: Option<IpAddressRange>)
    requires reader.Valid()
    modifies reader
    ensures reader.Valid() && HasRead(r, ReadRange(old(reader.Remaining())), reader.Remaining())
  {
    hide ReadFamily, ReadAddress;
    var family := ReadAddressFamily(reader);
    if family.None? {
      return None;
    }
    var start := ReadIpAddress(reader, family.value);
    if start.None? {
      return None;
    }
    var end := ReadIpAddress(reader, family.value);
    if end.None? {
      return None;
    }
    var protocol := ReadByte(reader);
    if protocol.None? {
      return None;
    }
    return Some(IpAddressRange(start.value, end.value, protocol.value));
  }

  method ReadAllRanges(reader: QuicheDataReader) returns (r: Option<seq<IpAddressRange>>)
    requires reader.Valid()
    modifies reader
    ensures reader.Valid() && r == ReadRanges(old(reader.Remaining()))
  {
    hide ReadRange;
    var ranges: seq<IpAddressRange> := [];
    ghost var all := ReadRanges(reader.Remaining());
    AfterNothing(all);
    var done := reader.IsDoneReading();
    while !done
      invariant reader.Valid() && done == (reader.Remaining() == [])
      invariant all == After(ranges, ReadRanges(reader.Remaining()))
      decreases |reader.Remaining()|
    {
      ghost var s := reader.Remaining();
      var range := ReadOneRange(reader);
      if range.None? {
        return None;
      }
      assert ReadRanges(s) == After([range.value], ReadRanges(reader.Remaining()));
      AfterTwice(ranges, [range.value], ReadRanges(reader.Remaining()));
      ranges := ranges + [range.value];
      done := reader.IsDoneReading();
    }
    assert ranges + [] == ranges;
    return Some(ranges);
  }

  function After<T>(front: seq<T>, back: Option<seq<T>>): Option<seq<T>> {
    match back
    case None => None
    case Some(s) => Some(front + s)
  }

  lemma AfterNothing<T>(back: Option<seq<T>>)
    ensures After([], back) == back
  {
    if back.Some? {
      assert [] + back.value == back.value;
    }
  }

  lemma AfterTwice<T>(a: seq<T>, b: seq<T>, back: Option<seq<T>>)
    ensures After(a, After(b, back)) == After(a + b, back)
  {
    if back.Some? {
      assert a + (b + back.value) == a + b + back.value;
    }
  }

  method ReadWebTransportStreamId(reader: QuicheDataReader) returns (r: Option<nat>)
    requires reader.Valid()
    modifies reader
    ensures reader.Valid() && HasRead(r, ReadStreamId(old(reader.Remaining())), reader.Remaining())
  {
    hide Read;
    var ok, id := reader.ReadVarInt62();
    if !ok || id >= UINT32_LIMIT {
      return None;
    }
    return Some(id);
  }

  method ReadWebTransportCapsule(reader: QuicheDataReader, kind: nat) returns (r: Option<Capsule>)
    requires reader.Valid()
    modifies reader
    ensures r == ReadWebTransport(kind, old(reader.Remaining()))
  {
    hide Read, ReadStreamId;
    var ok, n;
    if kind == WT_MAX_STREAMS_UNIDI || kind == WT_MAX_STREAMS_BIDI {
      ok, n := reader.ReadVarInt62();
      return if ok then Some(MaxStreams(kind == WT_MAX_STREAMS_UNIDI, n)) else None;
    }
    var id := ReadWebTransportStreamId(reader);
    if id.None? {
      return None;
    }
    if kind == WT_STREAM || kind == WT_STREAM_WITH_FIN {
      var data := reader.ReadRemainingPayload();
      return Some(StreamData(id.value, data, kind == WT_STREAM_WITH_FIN));
    }
    ok, n := reader.ReadVarInt62();
    if !ok {
      return None;
    }
    if kind == WT_RESET_STREAM {
      return Some(ResetStream(id.value, n));
    }
    if kind == WT_STOP_SENDING {
      return Some(StopSending(id.value, n));
    }
    return Some(MaxStreamData(id.value, n));
  }

  method ReadPeerAddress(reader: QuicheDataReader, id: nat) returns (r: Option<Capsule>)
    requires reader.Valid()
    modifies reader
    ensures r == ReadPeer(id, old(reader.Remaining()))
  {
    hide ReadAddress;
    ghost var s := reader.Remaining();
    var family := ReadByte(reader);
    if family.None? {
      return None;
    }
    ghost var s1 := reader.Remaining();
    assert s[1..] == s1 && s[..1] == [family.value];
    assert FromBytes([family.value]) == family.value by { assert [family.value][..0] == []; }
    var done;
    if family.value == 0 {
      done := reader.IsDoneReading();
      return if done then Some(CompressionAssign(id, None)) else None;
    }
    if family.value != 4 && family.value != 6 {
      return None;
    }
    assert ReadFamily(s) == Got(family.value as int, s1);
    hide ReadFamily;
    var host := ReadIpAddress(reader, family.value);
    if host.None? {
      return None;
    }
    ghost var s2 := reader.Remaining();
    var ok, port := reader.ReadUInt(2);
    if !ok {
      return None;
    }
    assert ReadUInt(s2, 2) == Got(port, reader.Remaining());
    done := reader.IsDoneReading();
    return if done then Some(CompressionAssign(id, Some(SocketAddress(host.value, port)))) else None;
  }

  method ReadCompressionCapsule(reader: QuicheDataReader, kind: nat) returns (r: Option<Capsule>)
    requires reader.Valid()
    modifies reader
    ensures r == ReadCompression(kind, old(reader.Remaining()))
  {
    hide Read, ReadPeer;
    var ok, id := reader.ReadVarInt62();
    if !ok {
      return None;
    }
    if kind == COMPRESSION_ASSIGN {
      r := ReadPeerAddress(reader, id);
    } else {
      var done := reader.IsDoneReading();
      return if done then Some(CompressionClose(id)) else None;
    }
  }

  method ReadIpCapsule(reader: QuicheDataReader, kind: nat) returns (r: Option<Capsule>)
    requires reader.Valid()
    modifies reader
    ensures r == ReadIp(kind, old(reader.Remaining()))
  {
    hide ReadPrefixes, ReadRanges;
    if kind == ROUTE_ADVERTISEMENT {
      var ranges := ReadAllRanges(reader);
      return if ranges.Some? then Some(RouteAdvertisement(ranges.value)) else None;
    }
    var prefixes := ReadAllPrefixes(reader);
    if prefixes.None? {
      return None;
    }
    return Some(if kind == ADDRESS_ASSIGN then AddressAssign(prefixes.value) else AddressRequest(prefixes.value));
  }

  method ReadCloseCapsule(reader: QuicheDataReader) returns (r: Option<Capsule>)
    requires reader.Valid()
    modifies reader
    ensures r == ReadClose(old(reader.Remaining()))
  {
    var ok, code := reader.ReadUInt(4);
    if !ok {
      return None;
    }
    var message := reader.ReadRemainingPayload();
    return Some(CloseSession(code, message));
  }

  method ParseCapsulePayload(reader: QuicheDataReader, kind: nat) returns (r: Option<Capsule>)
    requires reader.Valid()
    modifies reader
    ensures r == ParsePayload(kind, old(reader.Remaining()))
  {
    hide ReadClose, ReadIp, ReadCompression, ReadWebTransport;
    if kind == CLOSE_WEBTRANSPORT_SESSION {
      r := ReadCloseCapsule(reader);
    } else if kind == DRAIN_WEBTRANSPORT_SESSION {
      r := Some(DrainSession);
    } else if kind == ADDRESS_ASSIGN || kind == ADDRESS_REQUEST || kind == ROUTE_ADVERTISEMENT {
      r := ReadIpCapsule(reader, kind);
    } else if kind == COMPRESSION_ASSIGN || kind == COMPRESSION_CLOSE {
      r := ReadCompressionCapsule(reader, kind);
    } else if IsKnown(kind) && kind != DATAGRAM && kind != LEGACY_DATAGRAM && kind != LEGACY_DATAGRAM_WITHOUT_CONTEXT {
      r := ReadWebTransportCapsule(reader, kind);
    } else {
      var payload := reader.ReadRemainingPayload();
      r := Some(if kind == DATAGRAM then Datagram(payload)
                else if kind == LEGACY_DATAGRAM then LegacyDatagram(payload)
                else if kind == LEGACY_DATAGRAM_WITHOUT_CONTEXT then LegacyDatagramWithoutContext(payload)
                else Unknown(kind, payload));
    }
  }

  // ---------------------------------------------------------------------------------------------
  // The parser

  class CapsuleParser {
    const visitor: Visitor
    var bufferedData: seq<byte>
    var parsingErrorOccurred: bool
    /** The capsules the visitor was given. */
    var delivered: seq<Capsule>
    /** How often the visitor was told of a failure. */
    var failures: nat

    ghost predicate Valid()
      reads this
    {
      && failures == (if parsingErrorOccurred then 1 else 0)
      && (parsingErrorOccurred ==> bufferedData == [])
      && |bufferedData| <= MAX_BUFFER
      && NextCapsule(bufferedData).NeedMore?
    }

    function Abstract(): State
      reads this
    {
      State(bufferedData, delivered, parsingErrorOccurred)
    }

    constructor (visitor: Visitor)
      ensures Valid() && this.visitor == visitor && Abstract() == START && failures == 0
    {
      this.visitor := visitor;
      bufferedData, parsingErrorOccurred, delivered, failures := [], false, [], 0;
    }

    method ReportParseFailure()
      modifies this`parsingErrorOccurred, this`failures
      ensures parsingErrorOccurred
      ensures failures == old(failures) + if old(parsingErrorOccurred) then 0 else 1
    {
      if parsingErrorOccurred {
        return;
      }
      parsingErrorOccurred := true;
      failures := failures + 1;
    }

    /** The bytes of the capsule at the front; zero if it is not complete, `None` if it is bad or refused. */
    method AttemptParseCapsule() returns (r: Option<nat>)
      modifies this`delivered
      ensures NextCapsule(bufferedData).NeedMore? ==> r == Some(0) && delivered == old(delivered)
      ensures NextCapsule(bufferedData).Bad? ==> r == None && delivered == old(delivered)
      ensures NextCapsule(bufferedData).Next? ==> delivered == old(delivered) + [NextCapsule(bufferedData).capsule]
      ensures NextCapsule(bufferedData).Next? ==> r.Some? == visitor(delivered)
      ensures NextCapsule(bufferedData).Next? && r.Some? ==>
                0 < r.value <= |bufferedData| && bufferedData[r.value..] == NextCapsule(bufferedData).rest
    {
      hide Read, ReadString, ParsePayload;
      if bufferedData == [] {
        NothingNeedsMore();
        return Some(0);
      }
      var fragmentReader := new QuicheDataReader(bufferedData);
      var hasType, kind := fragmentReader.ReadVarInt62();
      if !hasType {
        return Some(0);
      }
      var hasData, data := fragmentReader.ReadStringPieceVarInt62();
      if !hasData {
        return Some(0);
      }
      var dataReader := new QuicheDataReader(data);
      var capsule := ParseCapsulePayload(dataReader, kind);
      if capsule.None? {
        return None;
      }
      delivered := delivered + [capsule.value];
      if !visitor(delivered) {
        return None;
      }
      var n := fragmentReader.PreviouslyReadLength();
      return Some(n);
    }

    /** Whether all is well so far. */
    method IngestCapsuleFragment(fragment: seq<byte>) returns (ok: bool)
      requires Valid()
      modifies this
      ensures Valid() && ok == !parsingErrorOccurred
      ensures Abstract() == Ingest(visitor, old(Abstract()), fragment)
    {
      hide NextCapsule;
      if parsingErrorOccurred {
        return false;
      }
      NothingNeedsMore();
      bufferedData := bufferedData + fragment;
      ghost var whole := Run(visitor, delivered, bufferedData);
      while true
        invariant !parsingErrorOccurred && failures == 0
        invariant whole == Run(visitor, delivered, bufferedData)
        decreases |bufferedData|
      {
        var n := AttemptParseCapsule();
        if n.None? {
          ReportParseFailure();
          bufferedData := [];
          return false;
        }
        if n.value == 0 {
          break;
        }
        bufferedData := bufferedData[n.value..];
      }
      if |bufferedData| > MAX_BUFFER {
        bufferedData := [];
        ReportParseFailure();
        return false;
      }
      ok := true;
    }

    /** The end of the stream: whatever is buffered is a capsule that will never be complete. */
    method ErrorIfThereIsRemainingBufferedData()
      requires Valid()
      modifies this`parsingErrorOccurred, this`failures
      ensures failures == (if parsingErrorOccurred then 1 else 0)
      ensures parsingErrorOccurred == (old(parsingErrorOccurred) || bufferedData != [])
    {
      if parsingErrorOccurred {
        return;
      }
      if bufferedData != [] {
        ReportParseFailure();
      }
    }

    /** A stream in any number of fragments. */
    method IngestAll(fragments: seq<seq<byte>>)
      requires Valid()
      modifies this
      ensures Valid() && Abstract() == Feed(visitor, old(Abstract()), fragments)
      ensures !old(parsingErrorOccurred) && Bounded(visitor, old(Abstract()), fragments) ==>
                Abstract() == Run(visitor, old(delivered), old(bufferedData) + Concat(fragments))
    {
      hide NextCapsule, Run, Bounded;
      ghost var start := Abstract();
      if !parsingErrorOccurred {
        AnyCutting(visitor, start, fragments);
      }
      var i := 0;
      assert fragments[0..] == fragments;
      while i < |fragments|
        invariant i <= |fragments| && Valid()
        invariant Feed(visitor, start, fragments) == Feed(visitor, Abstract(), fragments[i..])
      {
        assert fragments[i..][0] == fragments[i] && fragments[i..][1..] == fragments[i + 1..];
        var _ := IngestCapsuleFragment(fragments[i]);
        i := i + 1;
      }
    }
  }
}
