/** Capsules (RFC 9297 and its extensions): what they hold, how they are written and read. */
module Capsules {
  import opened Bytes
  import opened VarInt62
  import opened WireSerialization

  const DATAGRAM: nat := 0x00
  const LEGACY_DATAGRAM: nat := 0xff37a0
  const LEGACY_DATAGRAM_WITHOUT_CONTEXT: nat := 0xff37a5
  const CLOSE_WEBTRANSPORT_SESSION: nat := 0x2843
  const DRAIN_WEBTRANSPORT_SESSION: nat := 0x78ae
  const ADDRESS_ASSIGN: nat := 0x01
  const ADDRESS_REQUEST: nat := 0x02
  const ROUTE_ADVERTISEMENT: nat := 0x03
  const COMPRESSION_ASSIGN: nat := 0x1C0FE323
  const COMPRESSION_CLOSE: nat := 0x1C0FE324
  const WT_RESET_STREAM: nat := 0x190b4d39
  const WT_STOP_SENDING: nat := 0x190b4d3a
  const WT_STREAM: nat := 0x190b4d3b
  const WT_STREAM_WITH_FIN: nat := 0x190b4d3c
  const WT_MAX_STREAM_DATA: nat := 0x190b4d3e
  const WT_MAX_STREAMS_BIDI: nat := 0x190b4d3f
  const WT_MAX_STREAMS_UNIDI: nat := 0x190b4d40

  const UINT32_LIMIT: nat := 0x1_0000_0000

  /** A packed IP address: four bytes, sixteen, or none if it was never set. */
  type Address = a: seq<byte> | |a| in {0, 4, 16}

  datatype PrefixWithId = PrefixWithId(requestId: nat, address: Address, prefixLength: byte)
  datatype IpAddressRange = IpAddressRange(start: Address, end: Address, protocol: byte)
  datatype SocketAddress = SocketAddress(host: Address, port: nat)

  datatype Capsule =
    | Datagram(payload: seq<byte>)
    | LegacyDatagram(payload: seq<byte>)
    | LegacyDatagramWithoutContext(payload: seq<byte>)
    | CloseSession(errorCode: nat, message: seq<byte>)
    | DrainSession
    | AddressAssign(prefixes: seq<PrefixWithId>)
    | AddressRequest(prefixes: seq<PrefixWithId>)
    | RouteAdvertisement(ranges: seq<IpAddressRange>)
    | StreamData(streamId: nat, data: seq<byte>, fin: bool)
    | ResetStream(streamId: nat, errorCode: nat)
    | StopSending(streamId: nat, errorCode: nat)
    | MaxStreamData(streamId: nat, limit: nat)
    | MaxStreams(unidirectional: bool, limit: nat)
    | CompressionAssign(contextId: nat, peer: Option<SocketAddress>)
    | CompressionClose(contextId: nat)
    | Unknown(kind: nat, payload: seq<byte>)

  function TypeOf(c: Capsule): nat {
    match c
    case Datagram(_) => DATAGRAM
    case LegacyDatagram(_) => LEGACY_DATAGRAM
    case LegacyDatagramWithoutContext(_) => LEGACY_DATAGRAM_WITHOUT_CONTEXT
    case CloseSession(_, _) => CLOSE_WEBTRANSPORT_SESSION
    case DrainSession => DRAIN_WEBTRANSPORT_SESSION
    case AddressAssign(_) => ADDRESS_ASSIGN
    case AddressRequest(_) => ADDRESS_REQUEST
    case RouteAdvertisement(_) => ROUTE_ADVERTISEMENT
    case StreamData(_, _, fin) => if fin then WT_STREAM_WITH_FIN else WT_STREAM
    case ResetStream(_, _) => WT_RESET_STREAM
    case StopSending(_, _) => WT_STOP_SENDING
    case MaxStreamData(_, _) => WT_MAX_STREAM_DATA
    case MaxStreams(unidirectional, _) => if unidirectional then WT_MAX_STREAMS_UNIDI else WT_MAX_STREAMS_BIDI
    case CompressionAssign(_, _) => COMPRESSION_ASSIGN
    case CompressionClose(_) => COMPRESSION_CLOSE
    case Unknown(kind, _) => kind
  }

  predicate IsKnown(kind: nat) {
    || kind == DATAGRAM || kind == LEGACY_DATAGRAM || kind == LEGACY_DATAGRAM_WITHOUT_CONTEXT
    || kind == CLOSE_WEBTRANSPORT_SESSION || kind == DRAIN_WEBTRANSPORT_SESSION
    || kind == ADDRESS_ASSIGN || kind == ADDRESS_REQUEST || kind == ROUTE_ADVERTISEMENT
    || kind == COMPRESSION_ASSIGN || kind == COMPRESSION_CLOSE
    || kind == WT_RESET_STREAM || kind == WT_STOP_SENDING || kind == WT_STREAM || kind == WT_STREAM_WITH_FIN
    || kind == WT_MAX_STREAM_DATA || kind == WT_MAX_STREAMS_BIDI || kind == WT_MAX_STREAMS_UNIDI
  }

  // ---------------------------------------------------------------------------------------------
  // Writing

  function Family(a: Address): byte {
    if |a| == 4 then 4 else 6
  }

  function PrefixFields(p: PrefixWithId): Wire {
    Span([VarInt(p.requestId), UInt(Family(p.address), 1), Raw(p.address), UInt(p.prefixLength, 1)])
  }

  function RangeFields(r: IpAddressRange): Wire {
    Span([UInt(Family(r.start), 1), Raw(r.start), Raw(r.end), UInt(r.protocol, 1)])
  }

  /** An address that was never set is written as no address. */
  function PeerFields(peer: Option<SocketAddress>): seq<Wire> {
    if peer.None? || peer.value.host == [] then [UInt(0, 1)]
    else [UInt(Family(peer.value.host), 1), Raw(peer.value.host), UInt(peer.value.port, 2)]
  }

  function Fields(c: Capsule): seq<Wire> {
    match c
    case Datagram(p) => [Raw(p)]
    case LegacyDatagram(p) => [Raw(p)]
    case LegacyDatagramWithoutContext(p) => [Raw(p)]
    case CloseSession(code, message) => [UInt(code, 4), Raw(message)]
    case DrainSession => []
    case AddressAssign(ps) => [Span(seq(|ps|, i requires 0 <= i < |ps| => PrefixFields(ps[i])))]
    case AddressRequest(ps) => [Span(seq(|ps|, i requires 0 <= i < |ps| => PrefixFields(ps[i])))]
    case RouteAdvertisement(rs) => [Span(seq(|rs|, i requires 0 <= i < |rs| => RangeFields(rs[i])))]
    case StreamData(id, data, _) => [VarInt(id), Raw(data)]
    case ResetStream(id, code) => [VarInt(id), VarInt(code)]
    case StopSending(id, code) => [VarInt(id), VarInt(code)]
    case MaxStreamData(id, limit) => [VarInt(id), VarInt(limit)]
    case MaxStreams(_, limit) => [VarInt(limit)]
    case CompressionAssign(id, peer) => [VarInt(id)] + PeerFields(peer)
    case CompressionClose(id) => [VarInt(id)]
    case Unknown(_, p) => [Raw(p)]
  }

  /** Type, length and payload. */
  function Framed(kind: nat, fields: seq<Wire>): seq<Wire> {
    [VarInt(kind), VarInt(TotalLength(fields))] + fields
  }

  function Serialized(c: Capsule): Option<seq<byte>> {
    AllBytes(Framed(TypeOf(c), Fields(c)))
  }

  /** A capsule of an unknown kind must not pretend to be of a known one. */
  method SerializeCapsule(c: Capsule) returns (r: Option<seq<byte>>)
    requires c.Unknown? ==> !IsKnown(c.kind)
    ensures r == Serialized(c)
  {
    hide Fields;
    FramedNotEmpty(TypeOf(c), Fields(c));
    r := SerializeIntoBuffer(Framed(TypeOf(c), Fields(c)));
  }

  /** A frame always announces some length, so that a number out of range does not go unnoticed. */
  lemma FramedNotEmpty(kind: nat, fields: seq<Wire>)
    ensures TotalLength(Framed(kind, fields)) > 0
  {
    var length := VarInt(TotalLength(fields));
    AllBytesConcat([VarInt(kind), length], fields);
    assert [VarInt(kind), length][1..] == [length];
    assert TotalLength([length]) == Len(TotalLength(fields)) + TotalLength([length][1..]);
  }

  // ---------------------------------------------------------------------------------------------
  // Reading

  function ReadUInt(s: seq<byte>, size: nat): (r: Parsed<nat>)
    ensures r.Got? ==> |s| == size + |r.rest|
  {
    match Take(s, size)
    case Short => Short
    case Got(b, rest) => Got(FromBytes(b), rest)
  }

  function AddressSize(family: nat): nat {
    if family == 4 then 4 else 16
  }

  function ReadAddress(s: seq<byte>, family: nat): (r: Parsed<Address>)
    ensures r.Got? ==> |r.rest| < |s| && |r.value| == AddressSize(family)
  {
    match Take(s, AddressSize(family))
    case Short => Short
    case Got(a, rest) => Got(a, rest)
  }

  function ReadFamily(s: seq<byte>): (r: Parsed<nat>)
    ensures r.Got? ==> |s| == 1 + |r.rest| && (r.value == 4 || r.value == 6)
  {
    match ReadUInt(s, 1)
    case Short => Short
    case Got(f, rest) => if f == 4 || f == 6 then Got(f, rest) else Short
  }

  function ReadPrefixLength(s: seq<byte>, address: Address): (r: Parsed<byte>)
    ensures r.Got? ==> |s| == 1 + |r.rest|
  {
    if s == [] || s[0] > 8 * |address| then Short else Got(s[0], s[1..])
  }

  function ReadPrefix(s: seq<byte>): (r: Parsed<PrefixWithId>)
    ensures r.Got? ==> |r.rest| < |s|
  {
    match Read(s)
    case Short => Short
    case Got(id, s1) =>
      match ReadFamily(s1)
      case Short => Short
      case Got(family, s2) =>
        match ReadAddress(s2, family)
        case Short => Short
        case Got(a, s3) =>
          match ReadPrefixLength(s3, a)
          case Short => Short
          case Got(length, rest) => Got(PrefixWithId(id, a, length), rest)
  }

  function ReadPrefixes(s: seq<byte>): (r: Option<seq<PrefixWithId>>)
    decreases |s|
  {
    if s == [] then Some([])
    else
      match ReadPrefix(s)
      case Short => None
      case Got(p, rest) =>
        match ReadPrefixes(rest)
        case None => None
        case Some(others) => Some([p] + others)
  }

  function ReadRange(s: seq<byte>): (r: Parsed<IpAddressRange>)
    ensures r.Got? ==> |r.rest| < |s|
  {
    match ReadFamily(s)
    case Short => Short
    case Got(family, s1) =>
      match ReadAddress(s1, family)
      case Short => Short
      case Got(start, s2) =>
        match ReadAddress(s2, family)
        case Short => Short
        case Got(end, s3) =>
          if s3 == [] then Short else Got(IpAddressRange(start, end, s3[0]), s3[1..])
  }

  function ReadRanges(s: seq<byte>): (r: Option<seq<IpAddressRange>>)
    decreases |s|
  {
    if s == [] then Some([])
    else
      match ReadRange(s)
      case Short => None
      case Got(range, rest) =>
        match ReadRanges(rest)
        case None => None
        case Some(others) => Some([range] + others)
  }

  function ReadStreamId(s: seq<byte>): (r: Parsed<nat>)
  {
    match Read(s)
    case Short => Short
    case Got(id, rest) => if id < UINT32_LIMIT then Got(id, rest) else Short
  }

  /** A stream identifier and another number; what is behind them is ignored. */
  function ReadStreamPair(s: seq<byte>): Option<(nat, nat)> {
    match ReadStreamId(s)
    case Short => None
    case Got(id, rest) =>
      match Read(rest)
      case Short => None
      case Got(n, _) => Some((id, n))
  }

  function ReadPeer(id: nat, s: seq<byte>): Option<Capsule> {
    if s == [] then None
    else if s[0] == 0 then if |s| == 1 then Some(CompressionAssign(id, None)) else None
    else
      match ReadFamily(s)
      case Short => None
      case Got(family, s1) =>
        match ReadAddress(s1, family)
        case Short => None
        case Got(host, s2) =>
          match ReadUInt(s2, 2)
          case Short => None
          case Got(port, rest) =>
            if rest == [] then Some(CompressionAssign(id, Some(SocketAddress(host, port)))) else None
  }

  function ReadWebTransport(kind: nat, s: seq<byte>): Option<Capsule> {
    if kind == WT_STREAM || kind == WT_STREAM_WITH_FIN then
      match ReadStreamId(s)
      case Short => None
      case Got(id, rest) => Some(StreamData(id, rest, kind == WT_STREAM_WITH_FIN))
    else if kind == WT_MAX_STREAMS_UNIDI || kind == WT_MAX_STREAMS_BIDI then
      match Read(s)
      case Short => None
      case Got(n, _) => Some(MaxStreams(kind == WT_MAX_STREAMS_UNIDI, n))
    else
      match ReadStreamPair(s)
      case None => None
      case Some((id, n)) =>
        Some(if kind == WT_RESET_STREAM then ResetStream(id, n)
             else if kind == WT_STOP_SENDING then StopSending(id, n)
             else MaxStreamData(id, n))
  }

  function ReadClose(s: seq<byte>): Option<Capsule> {
    match ReadUInt(s, 4)
    case Short => None
    case Got(code, rest) => Some(CloseSession(code, rest))
  }

  function ReadCompression(kind: nat, s: seq<byte>): Option<Capsule> {
    match Read(s)
    case Short => None
    case Got(id, rest) =>
      if kind == COMPRESSION_ASSIGN then ReadPeer(id, rest)
      else if rest == [] then Some(CompressionClose(id)) else None
  }

  function ReadIp(kind: nat, s: seq<byte>): Option<Capsule> {
    if kind == ROUTE_ADVERTISEMENT then
      match ReadRanges(s)
      case None => None
      case Some(rs) => Some(RouteAdvertisement(rs))
    else
      match ReadPrefixes(s)
      case None => None
      case Some(ps) => Some(if kind == ADDRESS_ASSIGN then AddressAssign(ps) else AddressRequest(ps))
  }

  function ParsePayload(kind: nat, s: seq<byte>): (r: Option<Capsule>) {
    if kind == DATAGRAM then Some(Datagram(s))
    else if kind == LEGACY_DATAGRAM then Some(LegacyDatagram(s))
    else if kind == LEGACY_DATAGRAM_WITHOUT_CONTEXT then Some(LegacyDatagramWithoutContext(s))
    else if kind == CLOSE_WEBTRANSPORT_SESSION then ReadClose(s)
    else if kind == DRAIN_WEBTRANSPORT_SESSION then Some(DrainSession)
    else if kind == ADDRESS_ASSIGN || kind == ADDRESS_REQUEST || kind == ROUTE_ADVERTISEMENT then ReadIp(kind, s)
    else if kind == COMPRESSION_ASSIGN || kind == COMPRESSION_CLOSE then ReadCompression(kind, s)
    else if IsKnown(kind) then ReadWebTransport(kind, s)
    else Some(Unknown(kind, s))
  }

  // ---------------------------------------------------------------------------------------------
  // Well-formed capsules

  predicate GoodPrefix(p: PrefixWithId) {
    p.requestId < LIMIT && p.address != [] && p.prefixLength <= 8 * |p.address|
  }

  predicate GoodRange(r: IpAddressRange) {
    r.start != [] && |r.start| == |r.end|
  }

  /** Numbers in range, addresses set, both ends of a range of one family, no known kind in disguise. */
  predicate WellFormed(c: Capsule) {
    match c
    case Datagram(_) => true
    case LegacyDatagram(_) => true
    case LegacyDatagramWithoutContext(_) => true
    case CloseSession(code, _) => code < UINT32_LIMIT
    case DrainSession => true
    case AddressAssign(ps) => forall i :: 0 <= i < |ps| ==> GoodPrefix(ps[i])
    case AddressRequest(ps) => forall i :: 0 <= i < |ps| ==> GoodPrefix(ps[i])
    case RouteAdvertisement(rs) => forall i :: 0 <= i < |rs| ==> GoodRange(rs[i])
    case StreamData(id, _, _) => id < UINT32_LIMIT
    case ResetStream(id, code) => id < UINT32_LIMIT && code < LIMIT
    case StopSending(id, code) => id < UINT32_LIMIT && code < LIMIT
    case MaxStreamData(id, limit) => id < UINT32_LIMIT && limit < LIMIT
    case MaxStreams(_, limit) => limit < LIMIT
    case CompressionAssign(id, peer) =>
      id < LIMIT && (peer.Some? ==> peer.value.host != [] && peer.value.port < 0x1_0000)
    case CompressionClose(id) => id < LIMIT
    case Unknown(kind, _) => kind < LIMIT && !IsKnown(kind)
  }
}
