/** Known-length Binary HTTP messages (RFC 9292, sections 3.3 and 3.4) as values and as bytes. */
module BinaryHttpKnownLength {
  import opened Bytes
  import VarInt62
  import opened DataWriter
  import opened BinaryHttpStream
  import opened BinaryHttpEncoder

  const KNOWN_REQUEST: nat := 0
  const KNOWN_RESPONSE: nat := 1

  /** Header fields, body and padding, shared by requests and responses. */
  datatype Content = Content(fields: seq<Field>, body: seq<byte>, padding: nat)

  datatype Request = Request(control: ControlData, content: Content)

  datatype Informational = Informational(code: nat, fields: seq<Field>)

  datatype Response = Response(informational: seq<Informational>, code: nat, content: Content)

  const HOST: seq<byte> := ['h' as int, 'o' as int, 's' as int, 't' as int]

  predicate LowerNames(fields: seq<Field>) {
    forall i :: 0 <= i < |fields| ==> Lower(fields[i].name) == fields[i].name
  }

  predicate HasHost(fields: seq<Field>) {
    exists i :: 0 <= i < |fields| && fields[i].name == HOST
  }

  predicate InformationalCode(code: nat) {
    100 <= code <= 199
  }

  // ---------------------------------------------------------------------------------------------
  // Bytes

  /** Fields one after another; the names are already in lower case. */
  function ListBytes(fields: seq<Field>): (s: seq<byte>)
    requires FieldsFit(fields)
  {
    if fields == [] then []
    else TwoBytes(fields[0].name, fields[0].value) + ListBytes(fields[1..])
  }

  function ListSize(fields: seq<Field>): (n: nat) {
    if fields == [] then 0
    else
      VarInt62.Len(|fields[0].name|) + |fields[0].name|
      + VarInt62.Len(|fields[0].value|) + |fields[0].value| + ListSize(fields[1..])
  }

  /** Every length in the list, and the length of the list itself, has an encoding. */
  predicate ListFits(fields: seq<Field>) {
    FieldsFit(fields) && ListSize(fields) < VarInt62.LIMIT
  }

  lemma {:induction false} ListBytesSize(fields: seq<Field>)
    requires FieldsFit(fields)
    ensures |ListBytes(fields)| == ListSize(fields)
    decreases |fields|
  {
    if fields != [] {
      ListBytesSize(fields[1..]);
    }
  }

  function SizedListBytes(fields: seq<Field>): (s: seq<byte>)
    requires ListFits(fields)
  {
    VarInt62.Encode(ListSize(fields)) + ListBytes(fields)
  }

  predicate ContentFits(c: Content) {
    ListFits(c.fields) && |c.body| < VarInt62.LIMIT
  }

  function ContentBytes(c: Content): (s: seq<byte>)
    requires ContentFits(c)
  {
    SizedListBytes(c.fields) + VarInt62.EncodeString(c.body)
  }

  /** A host field replaces the authority. */
  function WrittenControl(r: Request): (c: ControlData) {
    if HasHost(r.content.fields) then r.control.(authority := []) else r.control
  }

  predicate RequestFits(r: Request) {
    ControlFits(WrittenControl(r)) && ContentFits(r.content)
  }

  function RequestBytes(r: Request): (s: seq<byte>)
    requires RequestFits(r)
  {
    var c := WrittenControl(r);
    VarInt62.Encode(KNOWN_REQUEST) + (TwoBytes(c.verb, c.scheme) + TwoBytes(c.authority, c.path))
    + ContentBytes(r.content) + Zeros(r.content.padding)
  }

  predicate InformationalFits(infos: seq<Informational>) {
    forall i :: 0 <= i < |infos| ==> infos[i].code < 0x1_0000 && ListFits(infos[i].fields)
  }

  function OneBytes(info: Informational): (s: seq<byte>)
    requires info.code < 0x1_0000 && ListFits(info.fields)
  {
    VarInt62.Encode(info.code) + SizedListBytes(info.fields)
  }

  function InformationalBytes(infos: seq<Informational>): (s: seq<byte>)
    requires InformationalFits(infos)
  {
    if infos == [] then []
    else OneBytes(infos[0]) + InformationalBytes(infos[1..])
  }

  predicate ResponseFits(r: Response) {
    InformationalFits(r.informational) && r.code < 0x1_0000 && ContentFits(r.content)
  }

  function ResponseBytes(r: Response): (s: seq<byte>)
    requires ResponseFits(r)
  {
    VarInt62.Encode(KNOWN_RESPONSE) + InformationalBytes(r.informational) + VarInt62.Encode(r.code)
    + ContentBytes(r.content) + Zeros(r.content.padding)
  }

  // ---------------------------------------------------------------------------------------------
  // Parsing

  /** Reads fields until nothing is left. */
  function ParseList(s: seq<byte>): (r: Option<seq<Field>>)
    decreases |s|
  {
    if s == [] then Some([])
    else
      match VarInt62.ReadString(s)
      case Short => None
      case Got(name, s1) =>
        match VarInt62.ReadString(s1)
        case Short => None
        case Got(value, s2) =>
          match ParseList(s2)
          case None => None
          case Some(others) => Some([Field(Lower(name), value)] + others)
  }

  /** A length-prefixed list of fields and what follows it. */
  function ParseSizedList(s: seq<byte>): (r: Option<(seq<Field>, seq<byte>)>)
    ensures r.Some? ==> |r.value.1| < |s|
  {
    match VarInt62.ReadString(s)
    case Short => None
    case Got(list, rest) =>
      match ParseList(list)
      case None => None
      case Some(fields) => Some((fields, rest))
  }

  predicate AllZero(s: seq<byte>) {
    forall i :: 0 <= i < |s| ==> s[i] == 0
  }

  /** A message may stop after its fields; whatever follows the body has to be zero. */
  function ParseContent(s: seq<byte>): (r: Option<Content>)
  {
    match ParseSizedList(s)
    case None => None
    case Some((fields, rest)) =>
      if rest == [] then Some(Content(fields, [], 0))
      else
        match VarInt62.ReadString(rest)
        case Short => None
        case Got(body, padding) =>
          if AllZero(padding) then Some(Content(fields, body, |padding|)) else None
  }

  function ParseRequest(s: seq<byte>): (r: Option<Request>)
  {
    match VarInt62.Read(s)
    case Short => None
    case Got(framing, s1) =>
      if framing != KNOWN_REQUEST then None else ParseAfterFraming(s1)
  }

  /** A request may stop after its control data. */
  function ParseAfterFraming(s: seq<byte>): (r: Option<Request>)
  {
    match ReadControlData(s)
    case Short => None
    case Got(control, s1) =>
      if s1 == [] then Some(Request(control, Content([], [], 0)))
      else
        match ParseContent(s1)
        case None => None
        case Some(content) => Some(Request(control, content))
  }

  /** Informational responses up to the first other status code, which is returned with the rest. */
  function ParseInformational(s: seq<byte>): (r: Option<(seq<Informational>, nat, seq<byte>)>)
    decreases |s|
  {
    match VarInt62.Read(s)
    case Short => None
    case Got(code, s1) =>
      if !InformationalCode(code) then Some(([], code, s1))
      else
        match ParseSizedList(s1)
        case None => None
        case Some((fields, s2)) =>
          match ParseInformational(s2)
          case None => None
          case Some((others, final, rest)) => Some(([Informational(code, fields)] + others, final, rest))
  }

  /** The final status code is kept in sixteen bits. */
  function ParseResponse(s: seq<byte>): (r: Option<Response>)
  {
    match VarInt62.Read(s)
    case Short => None
    case Got(framing, s1) =>
      if framing != KNOWN_RESPONSE then None else ParseResponseAfterFraming(s1)
  }

  function ParseResponseAfterFraming(s: seq<byte>): (r: Option<Response>)
  {
    match ParseInformational(s)
    case None => None
    case Some((infos, code, s1)) =>
      match ParseContent(s1)
      case None => None
      case Some(content) => Some(Response(infos, code % 0x1_0000, content))
  }

  // ---------------------------------------------------------------------------------------------
  // Round trips

  lemma {:induction false} ParseListBytes(fields: seq<Field>)
    requires FieldsFit(fields) && LowerNames(fields)
    ensures ParseList(ListBytes(fields)) == Some(fields)
    decreases |fields|
  {
    hide VarInt62.ReadString, VarInt62.EncodeString, Lower;
    if fields != [] {
      var f := fields[0];
      var s2 := ListBytes(fields[1..]);
      var s1 := VarInt62.EncodeString(f.value) + s2;
      assert ListBytes(fields) == VarInt62.EncodeString(f.name) + s1;
      VarInt62.ReadStringEncode(f.name, s1);
      VarInt62.ReadStringEncode(f.value, s2);
      ParseListBytes(fields[1..]);
      assert fields == [f] + fields[1..];
    }
  }

  lemma ParseSizedListBytes(fields: seq<Field>, t: seq<byte>)
    requires ListFits(fields) && LowerNames(fields)
    ensures ParseSizedList(SizedListBytes(fields) + t) == Some((fields, t))
  {
    hide VarInt62.ReadString, VarInt62.Encode, ListBytes, ParseList;
    ListBytesSize(fields);
    VarInt62.ReadStringEncode(ListBytes(fields), t);
    ParseListBytes(fields);
  }

  lemma ParseContentBytes(c: Content)
    requires ContentFits(c) && LowerNames(c.fields)
    ensures ParseContent(ContentBytes(c) + Zeros(c.padding)) == Some(c)
  {
    hide VarInt62.ReadString, SizedListBytes, ParseSizedList;
    var t := VarInt62.EncodeString(c.body) + Zeros(c.padding);
    assert ContentBytes(c) + Zeros(c.padding) == SizedListBytes(c.fields) + t;
    ParseSizedListBytes(c.fields, t);
    VarInt62.ReadStringEncode(c.body, Zeros(c.padding));
  }

  /** Every request comes back from its bytes, padding included; its authority comes back as it was
      if and only if no host field replaced it (or there was none to lose). */
  lemma RequestRoundTrip(r: Request)
    requires RequestFits(r) && LowerNames(r.content.fields)
    ensures ParseRequest(RequestBytes(r)) == Some(r.(control := WrittenControl(r)))
    ensures ParseRequest(RequestBytes(r)) == Some(r) <==> !HasHost(r.content.fields) || r.control.authority == []
  {
    hide VarInt62.Read, VarInt62.Encode, ReadControlData, ContentBytes, ParseContent, TwoBytes, HasHost;
    var c := WrittenControl(r);
    var s2 := ContentBytes(r.content) + Zeros(r.content.padding);
    var s1 := TwoBytes(c.verb, c.scheme) + TwoBytes(c.authority, c.path) + s2;
    assert RequestBytes(r) == VarInt62.Encode(KNOWN_REQUEST) + s1;
    VarInt62.ReadEncode(KNOWN_REQUEST, s1);
    ReadControlBytes(c, s2);
    ParseContentBytes(r.content);
    ContentNotEmpty(r.content);
  }

  lemma ContentNotEmpty(c: Content)
    requires ContentFits(c)
    ensures ContentBytes(c) != []
  {
    assert |VarInt62.Encode(ListSize(c.fields))| > 0;
  }

  predicate InformationalNormal(infos: seq<Informational>) {
    forall i :: 0 <= i < |infos| ==> InformationalCode(infos[i].code) && LowerNames(infos[i].fields)
  }

  lemma {:induction false} ParseInformationalBytes(infos: seq<Informational>, code: nat, t: seq<byte>)
    requires InformationalFits(infos) && InformationalNormal(infos) && code < 0x1_0000
    ensures !InformationalCode(code) ==>
              ParseInformational(InformationalBytes(infos) + (VarInt62.Encode(code) + t)) == Some((infos, code, t))
    ensures var r := ParseInformational(InformationalBytes(infos) + (VarInt62.Encode(code) + t));
            InformationalCode(code) && r.Some? ==> |r.value.0| > |infos|
    decreases |infos|
  {
    hide VarInt62.Read, VarInt62.Encode, ParseSizedList, SizedListBytes, LowerNames, ListFits;
    var s := VarInt62.Encode(code) + t;
    if infos == [] {
      VarInt62.ReadEncode(code, t);
      assert InformationalBytes(infos) + s == s;
    } else {
      var info := infos[0];
      var s2 := InformationalBytes(infos[1..]) + s;
      var s1 := SizedListBytes(info.fields) + s2;
      assert InformationalBytes(infos) + s == VarInt62.Encode(info.code) + s1;
      VarInt62.ReadEncode(info.code, s1);
      ParseSizedListBytes(info.fields, s2);
      ParseInformationalBytes(infos[1..], code, t);
      assert infos == [info] + infos[1..];
    }
  }

  /** Every response with a final status code that is not informational comes back from its bytes,
      and no other does: an informational final status opens one more informational response. */
  lemma ResponseRoundTrip(r: Response)
    requires ResponseFits(r) && InformationalNormal(r.informational) && LowerNames(r.content.fields)
    ensures ParseResponse(ResponseBytes(r)) == Some(r) <==> !InformationalCode(r.code)
  {
    hide VarInt62.Read, VarInt62.Encode, ParseInformational, InformationalBytes, ContentBytes, ParseContent;
    var s3 := ContentBytes(r.content) + Zeros(r.content.padding);
    var s2 := InformationalBytes(r.informational) + (VarInt62.Encode(r.code) + s3);
    assert ResponseBytes(r) == VarInt62.Encode(KNOWN_RESPONSE) + s2;
    VarInt62.ReadEncode(KNOWN_RESPONSE, s2);
    ParseInformationalBytes(r.informational, r.code, s3);
    ParseContentBytes(r.content);
  }

  /** Such messages: a request with an authority and a host field... */
  lemma HostLosesAuthority(authority: seq<byte>, path: seq<byte>)
    requires 0 < |authority| < 0x1000 && |path| < 0x1000
    ensures var r := Request(ControlData([], [], authority, path), Content([Field(HOST, authority)], [], 0));
            && RequestFits(r) && LowerNames(r.content.fields)
            && ParseRequest(RequestBytes(r)) == Some(r.(control := ControlData([], [], [], path))) != Some(r)
  {
    var f := Field(HOST, authority);
    var r := Request(ControlData([], [], authority, path), Content([f], [], 0));
    assert r.content.fields[0].name == HOST;
    assert ListSize([f]) == VarInt62.Len(4) + 4 + VarInt62.Len(|authority|) + |authority| by {
      assert [f][1..] == [];
    }
    RequestRoundTrip(r);
  }

  /** ... and a response that ends with early hints and padding: they come back as an informational
      response, and the padding as a final status of zero. */
  lemma InformationalFinalStatus()
    ensures var r := Response([], 103, Content([], [], 1));
            && ResponseFits(r)
            && ParseResponse(ResponseBytes(r)) == Some(Response([Informational(103, [])], 0, Content([], [], 0)))
  {
    hide VarInt62.Read, VarInt62.Encode, ParseSizedList;
    var r := Response([], 103, Content([], [], 1));
    var zero := VarInt62.Encode(0);
    var s := VarInt62.Encode(103) + (zero + (zero + zero));
    assert ResponseBytes(r) == VarInt62.Encode(KNOWN_RESPONSE) + s by {
      ZeroByte();
      assert ContentBytes(r.content) == zero + zero;
    }
    VarInt62.ReadEncode(KNOWN_RESPONSE, s);
    VarInt62.ReadEncode(103, zero + (zero + zero));
    EmptyList(zero + zero);
    VarInt62.ReadEncode(0, zero);
    EmptyList([]);
    assert zero + [] == zero;
    assert ParseInformational(zero + zero) == Some(([], 0, zero));
    assert [Informational(103, [])] + [] == [Informational(103, [])];
    assert ParseInformational(s) == Some(([Informational(103, [])], 0, zero));
    assert ParseContent(zero) == Some(Content([], [], 0));
    assert ParseResponseAfterFraming(s) == Some(Response([Informational(103, [])], 0, Content([], [], 0)));
  }

  lemma ZeroByte()
    ensures VarInt62.Encode(0) == [0]
  {
    assert ToBytes(0, 1) == [0];
  }

  lemma EmptyList(t: seq<byte>)
    ensures ParseSizedList(VarInt62.Encode(0) + t) == Some(([], t))
  {
    hide VarInt62.Encode, ParseSizedList;
    assert SizedListBytes([]) == VarInt62.Encode(0) + [] == VarInt62.Encode(0);
    ParseSizedListBytes([], t);
  }

  // ---------------------------------------------------------------------------------------------
  // Whatever is accepted

  lemma LowerTwice(s: seq<byte>)
    ensures Lower(Lower(s)) == Lower(s)
  {
  }

  lemma StringSize(s: seq<byte>)
    requires VarInt62.ReadString(s).Got?
    ensures var Got(v, rest) := VarInt62.ReadString(s);
            |v| < VarInt62.LIMIT && VarInt62.Len(|v|) + |v| <= |s| - |rest|
  {
    hide VarInt62.Read, VarInt62.Len, VarInt62.FirstByteLen;
    VarInt62.EncodeIsShortest(s);
  }

  /** A parsed list takes no more bytes than it was parsed from, and its names are in lower case. */
  lemma {:induction false} ParsedListIsNormal(s: seq<byte>)
    requires ParseList(s).Some?
    ensures var fields := ParseList(s).value; FieldsFit(fields) && LowerNames(fields) && ListSize(fields) <= |s|
    decreases |s|
  {
    hide VarInt62.ReadString, VarInt62.Len, Lower;
    if s != [] {
      StringSize(s);
      var name, s1 := VarInt62.ReadString(s).value, VarInt62.ReadString(s).rest;
      StringSize(s1);
      var value, s2 := VarInt62.ReadString(s1).value, VarInt62.ReadString(s1).rest;
      ParsedListIsNormal(s2);
      LowerTwice(name);
      var f, others := Field(Lower(name), value), ParseList(s2).value;
      assert ParseList(s).value == [f] + others;
      hide ParseList;
      WithFirst(f, others);
    }
  }

  lemma WithFirst(f: Field, others: seq<Field>)
    requires FieldFits(f) && Lower(f.name) == f.name && FieldsFit(others) && LowerNames(others)
    ensures FieldsFit([f] + others) && LowerNames([f] + others)
    ensures ListSize([f] + others)
         == VarInt62.Len(|f.name|) + |f.name| + VarInt62.Len(|f.value|) + |f.value| + ListSize(others)
  {
    hide VarInt62.Len, Lower;
    assert ([f] + others)[1..] == others;
  }

  lemma ParsedSizedListIsNormal(s: seq<byte>)
    requires ParseSizedList(s).Some?
    ensures ListFits(ParseSizedList(s).value.0) && LowerNames(ParseSizedList(s).value.0)
  {
    hide VarInt62.ReadString, ParseList, ListSize, FieldsFit, LowerNames;
    StringSize(s);
    ParsedListIsNormal(VarInt62.ReadString(s).value);
  }

  lemma ParsedContentIsNormal(s: seq<byte>)
    requires ParseContent(s).Some?
    ensures ContentFits(ParseContent(s).value) && LowerNames(ParseContent(s).value.fields)
  {
    hide VarInt62.ReadString, ParseSizedList, ListFits, LowerNames, AllZero;
    ParsedSizedListIsNormal(s);
    var rest := ParseSizedList(s).value.1;
    if rest != [] {
      StringSize(rest);
    }
  }

  lemma {:induction false} ReadStringsFit(s: seq<byte>, n: nat)
    requires ReadStrings(s, n).Got?
    ensures forall i :: 0 <= i < n ==> |ReadStrings(s, n).value[i]| < VarInt62.LIMIT
    decreases n
  {
    hide VarInt62.ReadString;
    if n > 0 {
      StringSize(s);
      ReadStringsFit(VarInt62.ReadString(s).rest, n - 1);
    }
  }

  lemma ReadControlFits(s: seq<byte>)
    requires ReadControlData(s).Got?
    ensures ControlFits(ReadControlData(s).value)
  {
    hide ReadStrings;
    ReadStringsFit(s, 4);
  }

  lemma {:induction false} ParsedInformationalIsNormal(s: seq<byte>)
    requires ParseInformational(s).Some?
    ensures var infos := ParseInformational(s).value.0; InformationalFits(infos) && InformationalNormal(infos)
    decreases |s|
  {
    hide VarInt62.Read, ParseSizedList, ListFits, LowerNames;
    var Got(code, s1) := VarInt62.Read(s);
    if InformationalCode(code) {
      ParsedSizedListIsNormal(s1);
      ParsedInformationalIsNormal(ParseSizedList(s1).value.1);
    }
  }

  /** A request that is accepted can be written, and comes back if and only if no host field takes the
      place of its authority. */
  lemma AcceptedRequestComesBack(s: seq<byte>)
    requires ParseRequest(s).Some?
    ensures var r := ParseRequest(s).value;
            && RequestFits(r)
            && (ParseRequest(RequestBytes(r)) == Some(r) <==> !HasHost(r.content.fields) || r.control.authority == [])
  {
    hide VarInt62.Read, ReadControlData, ParseContent, ContentFits, LowerNames, HasHost, RequestBytes;
    var r, s1 := ParseRequest(s).value, VarInt62.Read(s).rest;
    ReadControlFits(s1);
    var s2 := ReadControlData(s1).rest;
    if s2 == [] {
      NoContentFits();
    } else {
      ParsedContentIsNormal(s2);
    }
    RequestRoundTrip(r);
  }

  lemma NoContentFits()
    ensures ContentFits(Content([], [], 0)) && LowerNames([])
  {
  }

  /** A response that is accepted can be written, and comes back if and only if its final status, of which
      sixteen bits are kept, is not informational. */
  lemma AcceptedResponseComesBack(s: seq<byte>)
    requires ParseResponse(s).Some?
    ensures var r := ParseResponse(s).value;
            && ResponseFits(r) && (ParseResponse(ResponseBytes(r)) == Some(r) <==> !InformationalCode(r.code))
  {
    hide VarInt62.Read, ParseInformational, ParseContent, ContentFits, LowerNames;
    hide InformationalFits, InformationalNormal, ResponseBytes;
    var r, s1 := ParseResponse(s).value, VarInt62.Read(s).rest;
    ParsedInformationalIsNormal(s1);
    ParsedContentIsNormal(ParseInformational(s1).value.2);
    ResponseRoundTrip(r);
  }

  /** Of a status code that is not informational, sixteen bits are kept, whatever they are. */
  lemma StatusIsReduced(code: nat)
    requires code < VarInt62.LIMIT && !InformationalCode(code)
    ensures var s := VarInt62.Encode(KNOWN_RESPONSE) + (VarInt62.Encode(code) + VarInt62.Encode(0));
            ParseResponse(s) == Some(Response([], code % 0x1_0000, Content([], [], 0)))
  {
    hide VarInt62.Read, VarInt62.Encode, ParseSizedList;
    var zero := VarInt62.Encode(0);
    var s := VarInt62.Encode(code) + zero;
    VarInt62.ReadEncode(KNOWN_RESPONSE, s);
    VarInt62.ReadEncode(code, zero);
    EmptyList([]);
    assert zero + [] == zero;
  }

  /** Such a response: 65639 is read as 103, and does not come back. */
  lemma WrappedStatusIsLost()
    ensures var s := VarInt62.Encode(KNOWN_RESPONSE) + (VarInt62.Encode(65639) + VarInt62.Encode(0));
            var r := Response([], 103, Content([], [], 0));
            ParseResponse(s) == Some(r) && ResponseFits(r) && ParseResponse(ResponseBytes(r)) != Some(r)
  {
    hide VarInt62.Encode, ParseResponse, ResponseBytes;
    StatusIsReduced(65639);
    AcceptedResponseComesBack(VarInt62.Encode(KNOWN_RESPONSE) + (VarInt62.Encode(65639) + VarInt62.Encode(0)));
  }
}
