/** The encoders for indeterminate-length requests and responses. */
module BinaryHttpEncoder {
  import opened Bytes
  import VarInt62
  import opened DataWriter
  import opened BinaryHttpStream

  // ---------------------------------------------------------------------------------------------
  // What is written

  function LowerByte(b: byte): (r: byte)
  {
    if 'A' as int <= b <= 'Z' as int then b + 32 else b
  }

  function Lower(s: seq<byte>): (r: seq<byte>)
    ensures |r| == |s|
  {
    seq(|s|, i requires 0 <= i < |s| => LowerByte(s[i]))
  }

  function LowerField(f: Field): Field {
    Field(Lower(f.name), f.value)
  }

  predicate FieldFits(f: Field) {
    |f.name| < VarInt62.LIMIT && |f.value| < VarInt62.LIMIT
  }

  predicate FieldsFit(fields: seq<Field>) {
    forall i :: 0 <= i < |fields| ==> FieldFits(fields[i])
  }

  function FieldBytes(f: Field): (s: seq<byte>)
    requires FieldFits(f)
    ensures |s| == VarInt62.Len(|f.name|) + |f.name| + VarInt62.Len(|f.value|) + |f.value|
  {
    TwoBytes(Lower(f.name), f.value)
  }

  function FieldsBytes(fields: seq<Field>): (s: seq<byte>)
    requires FieldsFit(fields)
  {
    if fields == [] then [] else FieldBytes(fields[0]) + FieldsBytes(fields[1..])
  }

  /** A field section and the content terminator that closes it. */
  function SectionBytes(fields: seq<Field>): (s: seq<byte>)
    requires FieldsFit(fields)
  {
    FieldsBytes(fields) + VarInt62.Encode(0)
  }

  predicate ChunksFit(chunks: seq<seq<byte>>) {
    forall i :: 0 <= i < |chunks| ==> |chunks[i]| < VarInt62.LIMIT
  }

  /** Empty chunks would read as the terminator and are not written. */
  function ChunksBytes(chunks: seq<seq<byte>>): (s: seq<byte>)
    requires ChunksFit(chunks)
  {
    if chunks == [] then []
    else (if chunks[0] == [] then [] else VarInt62.EncodeString(chunks[0])) + ChunksBytes(chunks[1..])
  }

  function BodyBytes(chunks: seq<seq<byte>>, done: bool): (s: seq<byte>)
    requires ChunksFit(chunks)
  {
    ChunksBytes(chunks) + if done then VarInt62.Encode(0) else []
  }

  predicate ControlFits(c: ControlData) {
    && |c.verb| < VarInt62.LIMIT && |c.scheme| < VarInt62.LIMIT
    && |c.authority| < VarInt62.LIMIT && |c.path| < VarInt62.LIMIT
  }

  function TwoBytes(s: seq<byte>, t: seq<byte>): (r: seq<byte>)
    requires |s| < VarInt62.LIMIT && |t| < VarInt62.LIMIT
    ensures |r| == VarInt62.Len(|s|) + |s| + VarInt62.Len(|t|) + |t|
  {
    VarInt62.EncodeString(s) + VarInt62.EncodeString(t)
  }

  function ControlBytes(c: ControlData): (s: seq<byte>)
    requires ControlFits(c)
    ensures |s| == VarInt62.Len(REQUEST_FRAMING) + |TwoBytes(c.verb, c.scheme)| + |TwoBytes(c.authority, c.path)|
  {
    VarInt62.Encode(REQUEST_FRAMING) + TwoBytes(c.verb, c.scheme) + TwoBytes(c.authority, c.path)
  }

  /** The four strings of the control data are read back. */
  lemma ReadControlBytes(c: ControlData, t: seq<byte>)
    requires ControlFits(c)
    ensures ReadControlData(TwoBytes(c.verb, c.scheme) + TwoBytes(c.authority, c.path) + t) == Got(c, t)
  {
    hide VarInt62.ReadString, VarInt62.EncodeString;
    var e := VarInt62.EncodeString;
    var s4 := e(c.path) + t;
    var s3 := e(c.authority) + s4;
    var s2 := e(c.scheme) + s3;
    var s1 := e(c.verb) + s2;
    assert TwoBytes(c.verb, c.scheme) + TwoBytes(c.authority, c.path) + t == s1;
    VarInt62.ReadStringEncode(c.verb, s2);
    VarInt62.ReadStringEncode(c.scheme, s3);
    VarInt62.ReadStringEncode(c.authority, s4);
    VarInt62.ReadStringEncode(c.path, t);
    assert ReadStrings(t, 0) == Got([], t);
    assert ReadStrings(s4, 1) == Got([c.path] + [], t);
    assert ReadStrings(s3, 2) == Got([c.authority] + ([c.path] + []), t);
    assert ReadStrings(s2, 3) == Got([c.scheme] + ([c.authority] + ([c.path] + [])), t);
    assert ReadStrings(s1, 4) == Got([c.verb] + ([c.scheme] + ([c.authority] + ([c.path] + []))), t);
  }

  /** The framing indicator goes out with the first response section only. */
  function ResponsePrefix(sec: Section, code: nat): (s: seq<byte>)
    requires code < VarInt62.LIMIT
    ensures |s| == (if sec.Framing? then VarInt62.Len(RESPONSE_FRAMING) else 0) + VarInt62.Len(code)
  {
    (if sec.Framing? then VarInt62.Encode(RESPONSE_FRAMING) else []) + VarInt62.Encode(code)
  }

  /** What comes in front of a response section: nothing if it is the trailers. */
  function Prefix(sec: Section, code: Option<nat>): (s: seq<byte>)
    requires code.Some? ==> code.value < VarInt62.LIMIT
    requires code.None? ==> !sec.Framing?
    ensures |s| == (if sec.Framing? then VarInt62.Len(RESPONSE_FRAMING) else 0)
                   + (if code.Some? then VarInt62.Len(code.value) else 0)
  {
    if code.Some? then ResponsePrefix(sec, code.value) else []
  }

  // ---------------------------------------------------------------------------------------------
  // Which call is allowed when

  /** The encoding calls of a request and of a response. */
  datatype Call =
    | ControlCall(control: ControlData)
    | HeadersCall(fields: seq<Field>)
    | InformationalCall(code: nat, fields: seq<Field>)
    | FinalHeadersCall(code: nat, fields: seq<Field>)
    | BodyCall(chunks: seq<seq<byte>>, done: bool)
    | TrailersCall(fields: seq<Field>)

  datatype Encoded = Encoded(data: seq<byte>) | Refused(status: Status)

  /** One call in section `sec`: the section after it, and its result.  A refused call ends the
      encoding, except that an informational response whose fields are too long does not. */
  function Encode(sec: Section, call: Call): (r: (Section, Encoded))
  {
    match call
    case ControlCall(control) =>
      if !sec.Control? then (End, Refused(InvalidArgument))
      else if !ControlFits(control) then (End, Refused(Internal))
      else (Header, Encoded(ControlBytes(control)))
    case HeadersCall(fields) =>
      if !sec.Header? || !FieldsFit(fields) then (End, Refused(InvalidArgument))
      else (Body, Encoded(SectionBytes(fields)))
    case InformationalCall(code, fields) =>
      if !(sec.Framing? || sec.StatusCode?) || code < 100 || code > 199 then (End, Refused(InvalidArgument))
      else if !FieldsFit(fields) then (StatusCode, Refused(InvalidArgument))
      else (StatusCode, Encoded(ResponsePrefix(sec, code) + SectionBytes(fields)))
    case FinalHeadersCall(code, fields) =>
      if !(sec.Framing? || sec.StatusCode?) || code < 200 || code > 599 || !FieldsFit(fields) then
        (End, Refused(InvalidArgument))
      else (Body, Encoded(ResponsePrefix(sec, code) + SectionBytes(fields)))
    case BodyCall(chunks, done) =>
      if !sec.Body? || !ChunksFit(chunks) || BodyBytes(chunks, done) == [] then
        (End, Refused(InvalidArgument))
      else (if done then Trailer else Body, Encoded(BodyBytes(chunks, done)))
    case TrailersCall(fields) =>
      if !sec.Trailer? || !FieldsFit(fields) then (End, Refused(InvalidArgument))
      else (End, Encoded(SectionBytes(fields)))
  }

  // ---------------------------------------------------------------------------------------------
  // Writing into exactly sized buffers

  method StringPieceVarInt62Len(s: seq<byte>) returns (n: nat)
    ensures n == VarInt62.Len(|s|) + |s|
  {
    n := VarInt62.Len(|s|) + |s|;
  }

  predicate TwoFit(s: seq<byte>, t: seq<byte>) {
    |s| < VarInt62.LIMIT && |t| < VarInt62.LIMIT
  }

  /** Two strings; only their own lengths and the room for them can stop this. */
  method WriteTwo(writer: QuicheDataWriter, s: seq<byte>, t: seq<byte>) returns (ok: bool)
    requires writer.Valid()
    modifies writer, writer.buffer
    ensures writer.Valid() && (ok <==> TwoFit(s, t) && |TwoBytes(s, t)| <= old(writer.Room()))
    ensures ok ==> writer.Written() == old(writer.Written()) + TwoBytes(s, t)
  {
    hide VarInt62.EncodeString;
    ok := writer.WriteStringPieceVarInt62(s);
    if ok {
      ok := writer.WriteStringPieceVarInt62(t);
    }
  }

  method WriteControlData(writer: QuicheDataWriter, control: ControlData) returns (ok: bool)
    requires writer.Valid()
    modifies writer, writer.buffer
    ensures writer.Valid() && (ok <==> ControlFits(control) && |ControlBytes(control)| <= old(writer.Room()))
    ensures ok ==> writer.Written() == old(writer.Written()) + ControlBytes(control)
  {
    hide VarInt62.Encode, TwoBytes;
    ok := writer.WriteVarInt62(REQUEST_FRAMING);
    if ok {
      ok := WriteTwo(writer, control.verb, control.scheme);
    }
    if ok {
      ok := WriteTwo(writer, control.authority, control.path);
    }
  }

  method GetFieldSectionLength(fields: seq<Field>) returns (ok: bool, length: nat)
    ensures ok <==> FieldsFit(fields)
    ensures ok ==> length == |SectionBytes(fields)|
  {
    length := 0;
    for k := 0 to |fields|
      invariant FieldsFit(fields[..k])
      invariant length == |FieldsBytes(fields[..k])|
    {
      var n := VarInt62.Len(|fields[k].name|);
      if n == 0 {
        return false, length;
      }
      length := length + n + |fields[k].name|;
      n := VarInt62.Len(|fields[k].value|);
      if n == 0 {
        return false, length;
      }
      length := length + n + |fields[k].value|;
      FieldsBytesSnoc(fields, k);
    }
    assert fields[..|fields|] == fields;
    length := length + VarInt62.Len(0);
    ok := true;
  }

  lemma {:induction false} FieldsBytesConcat(a: seq<Field>, b: seq<Field>)
    requires FieldsFit(a) && FieldsFit(b)
    ensures FieldsFit(a + b) && FieldsBytes(a + b) == FieldsBytes(a) + FieldsBytes(b)
    decreases |a|
  {
    assert FieldsFit(a + b);
    if a == [] {
      assert a + b == b;
    } else {
      assert (a + b)[1..] == a[1..] + b;
      FieldsBytesConcat(a[1..], b);
    }
  }

  lemma FieldsBytesSnoc(fields: seq<Field>, k: nat)
    requires k < |fields| && FieldsFit(fields[..k]) && FieldFits(fields[k])
    ensures FieldsFit(fields[..k + 1])
    ensures FieldsBytes(fields[..k + 1]) == FieldsBytes(fields[..k]) + FieldBytes(fields[k])
  {
    assert fields[..k + 1] == fields[..k] + [fields[k]];
    FieldsBytesConcat(fields[..k], [fields[k]]);
    assert FieldsBytes([fields[k]]) == FieldBytes(fields[k]) + FieldsBytes([]);
  }

  /** Writes the section and its terminator, if every string has a length encoding and there is room
      for all of it. */
  method EncodeFields(fields: seq<Field>, writer: QuicheDataWriter) returns (ok: bool)
    requires writer.Valid()
    modifies writer, writer.buffer
    ensures writer.Valid()
    ensures ok <==> FieldsFit(fields) && |SectionBytes(fields)| <= old(writer.Room())
    ensures ok ==> writer.Written() == old(writer.Written()) + SectionBytes(fields)
  {
    hide FieldBytes, FieldsBytes, VarInt62.Encode;
    NoFields(fields);
    for k := 0 to |fields|
      invariant writer.Valid() && FieldsFit(fields[..k])
      invariant writer.Written() == old(writer.Written()) + FieldsBytes(fields[..k])
    {
      FieldsPrefix(fields, k);
      ok := WriteField(fields[k], writer);
      if !ok {
        return;
      }
      FieldsBytesSnoc(fields, k);
    }
    assert fields[..|fields|] == fields;
    ok := writer.WriteVarInt62(0);
  }

  lemma NoFields(fields: seq<Field>)
    ensures FieldsFit(fields[..0]) && FieldsBytes(fields[..0]) == []
  {
  }

  method WriteField(f: Field, writer: QuicheDataWriter) returns (ok: bool)
    requires writer.Valid()
    modifies writer, writer.buffer
    ensures writer.Valid() && (ok <==> FieldFits(f) && |FieldBytes(f)| <= old(writer.Room()))
    ensures ok ==> writer.Written() == old(writer.Written()) + FieldBytes(f)
  {
    ok := WriteTwo(writer, Lower(f.name), f.value);
  }

  /** What was written so far and the next field are part of the section. */
  lemma FieldsPrefix(fields: seq<Field>, k: nat)
    requires k < |fields| && FieldsFit(fields[..k])
    ensures FieldsFit(fields) ==> FieldFits(fields[k])
    ensures FieldsFit(fields) ==> |FieldsBytes(fields[..k])| + |FieldBytes(fields[k])| <= |FieldsBytes(fields)|
  {
    hide FieldBytes, FieldsBytes, FieldFits;
    if FieldsFit(fields) {
      FieldsBytesSnoc(fields, k);
      assert fields == fields[..k + 1] + fields[k + 1..];
      FieldsBytesConcat(fields[..k + 1], fields[k + 1..]);
    }
  }

  lemma {:induction false} ChunksBytesConcat(a: seq<seq<byte>>, b: seq<seq<byte>>)
    requires ChunksFit(a) && ChunksFit(b)
    ensures ChunksFit(a + b) && ChunksBytes(a + b) == ChunksBytes(a) + ChunksBytes(b)
    decreases |a|
  {
    hide VarInt62.EncodeString;
    assert ChunksFit(a + b);
    if a == [] {
      assert a + b == b;
    } else {
      assert (a + b)[1..] == a[1..] + b;
      ChunksBytesConcat(a[1..], b);
    }
  }

  lemma ChunksBytesOne(chunk: seq<byte>)
    requires |chunk| < VarInt62.LIMIT
    ensures ChunksFit([chunk]) && ChunksBytes([chunk]) == if chunk == [] then [] else VarInt62.EncodeString(chunk)
  {
    hide VarInt62.EncodeString;
    assert [chunk][1..] == [];
  }

  lemma ChunksBytesSnoc(chunks: seq<seq<byte>>, k: nat)
    requires k < |chunks| && ChunksFit(chunks)
    ensures ChunksFit(chunks[..k]) && ChunksFit(chunks[..k + 1])
    ensures ChunksBytes(chunks[..k + 1]) ==
            ChunksBytes(chunks[..k]) + if chunks[k] == [] then [] else VarInt62.EncodeString(chunks[k])
  {
    hide VarInt62.EncodeString, ChunksBytes;
    assert chunks[..k + 1] == chunks[..k] + [chunks[k]];
    ChunksBytesOne(chunks[k]);
    ChunksBytesConcat(chunks[..k], [chunks[k]]);
  }

  /** The total length first, then a buffer of that size, then the chunks.  The writes never fail and
      fill the buffer exactly. */
  method EncodeBodyChunksImpl(chunks: seq<seq<byte>>, done: bool) returns (r: Encoded)
    ensures r == if ChunksFit(chunks) && BodyBytes(chunks, done) != []
                 then Encoded(BodyBytes(chunks, done)) else Refused(InvalidArgument)
  {
    var total := 0;
    for k := 0 to |chunks|
      invariant ChunksFit(chunks[..k]) && total == |ChunksBytes(chunks[..k])|
    {
      var n := VarInt62.Len(|chunks[k]|);
      if chunks[k] != [] && n == 0 {
        return Refused(InvalidArgument);
      }
      assert chunks[..k + 1][..k] == chunks[..k];
      ChunksBytesSnoc(chunks[..k + 1], k);
      assert chunks[..k + 1][..k + 1] == chunks[..k + 1];
      if chunks[k] != [] {
        total := total + n + |chunks[k]|;
      }
    }
    assert chunks[..|chunks|] == chunks;
    if done {
      total := total + VarInt62.Len(0);
    }
    if total == 0 {
      return Refused(InvalidArgument);
    }
    r := WriteBodyChunks(chunks, done, total);
  }

  method WriteBodyChunks(chunks: seq<seq<byte>>, done: bool, total: nat) returns (r: Encoded)
    requires ChunksFit(chunks) && total == |BodyBytes(chunks, done)|
    ensures r == Encoded(BodyBytes(chunks, done))
  {
    hide VarInt62.Encode, VarInt62.EncodeString;
    var writer := new QuicheDataWriter(total);
    for k := 0 to |chunks|
      invariant writer.Valid() && writer.Written() == ChunksBytes(chunks[..k])
      invariant |ChunksBytes(chunks[..k])| <= |ChunksBytes(chunks)|
    {
      ChunksBytesSnoc(chunks, k);
      ChunksPrefix(chunks, k + 1);
      if chunks[k] != [] {
        var ok := writer.WriteStringPieceVarInt62(chunks[k]);
        if !ok {
          return Refused(Internal);
        }
      }
    }
    assert chunks[..|chunks|] == chunks;
    if done {
      var ok := writer.WriteVarInt62(0);
      if !ok {
        return Refused(Internal);
      }
    }
    if writer.length != writer.buffer.Length {
      return Refused(Internal);
    }
    r := Encoded(writer.buffer[..]);
  }

  lemma {:induction false} ChunksPrefix(chunks: seq<seq<byte>>, k: nat)
    requires k <= |chunks| && ChunksFit(chunks)
    ensures ChunksFit(chunks[..k]) && |ChunksBytes(chunks[..k])| <= |ChunksBytes(chunks)|
    decreases |chunks| - k
  {
    if k < |chunks| {
      ChunksBytesSnoc(chunks, k);
      ChunksPrefix(chunks, k + 1);
    } else {
      assert chunks[..k] == chunks;
    }
  }

  // ---------------------------------------------------------------------------------------------
  // Requests

  class RequestEncoder {
    var section: Section

    constructor ()
      ensures section == Control
    {
      section := Control;
    }

    method EncodeFieldSection(fields: seq<Field>) returns (r: Encoded)
      ensures r == if FieldsFit(fields) then Encoded(SectionBytes(fields)) else Refused(InvalidArgument)
    {
      hide SectionBytes;
      var ok, length := GetFieldSectionLength(fields);
      if !ok {
        return Refused(InvalidArgument);
      }
      var writer := new QuicheDataWriter(length);
      ok := EncodeFields(fields, writer);
      if !ok {
        return Refused(Internal);
      }
      if writer.length != writer.buffer.Length {
        return Refused(Internal);
      }
      r := Encoded(writer.buffer[..]);
    }

    method EncodeControlData(control: ControlData) returns (r: Encoded)
      modifies this
      ensures (section, r) == Encode(old(section), ControlCall(control))
    {
      hide VarInt62.Encode, VarInt62.Len, ControlBytes;
      if !section.Control? {
        section := End;
        return Refused(InvalidArgument);
      }
      var n1 := StringPieceVarInt62Len(control.verb);
      var n2 := StringPieceVarInt62Len(control.scheme);
      var n3 := StringPieceVarInt62Len(control.authority);
      var n4 := StringPieceVarInt62Len(control.path);
      var total := VarInt62.Len(REQUEST_FRAMING) + n1 + n2 + n3 + n4;
      var writer := new QuicheDataWriter(total);
      section := End;
      var ok := WriteControlData(writer, control);
      if !ok {
        return Refused(Internal);
      }
      if writer.length != writer.buffer.Length {
        return Refused(Internal);
      }
      section := Header;
      assert writer.Written() == [] + ControlBytes(control) == ControlBytes(control);
      assert writer.Written() == writer.buffer[..];
      r := Encoded(writer.buffer[..]);
    }

    method EncodeHeaders(headers: seq<Field>) returns (r: Encoded)
      modifies this
      ensures (section, r) == Encode(old(section), HeadersCall(headers))
    {
      if !section.Header? {
        section := End;
        return Refused(InvalidArgument);
      }
      r := EncodeFieldSection(headers);
      section := if r.Encoded? then Body else End;
    }

    method EncodeBodyChunks(chunks: seq<seq<byte>>, done: bool) returns (r: Encoded)
      modifies this
      ensures (section, r) == Encode(old(section), BodyCall(chunks, done))
    {
      if !section.Body? {
        section := End;
        return Refused(InvalidArgument);
      }
      r := EncodeBodyChunksImpl(chunks, done);
      if !r.Encoded? {
        section := End;
      } else if done {
        section := Trailer;
      }
    }

    method EncodeTrailers(trailers: seq<Field>) returns (r: Encoded)
      modifies this
      ensures (section, r) == Encode(old(section), TrailersCall(trailers))
    {
      if !section.Trailer? {
        section := End;
        return Refused(InvalidArgument);
      }
      section := End;
      r := EncodeFieldSection(trailers);
    }
  }

  // ---------------------------------------------------------------------------------------------
  // Responses

  class ResponseEncoder {
    var section: Section

    constructor ()
      ensures section == Framing
    {
      section := Framing;
    }

    /** The framing indicator if it is still due, the status code if there is one, the fields. */
    method EncodeFieldSection(code: Option<nat>, fields: seq<Field>) returns (r: Encoded)
      requires code.Some? ==> code.value < VarInt62.LIMIT
      requires code.None? ==> !section.Framing?
      modifies this
      ensures section == if old(section).Framing? && FieldsFit(fields) then StatusCode else old(section)
      ensures r == if FieldsFit(fields)
                   then Encoded(Prefix(old(section), code) + SectionBytes(fields))
                   else Refused(InvalidArgument)
    {
      hide SectionBytes, Prefix, VarInt62.Len, FieldsFit;
      var ok, total := GetFieldSectionLength(fields);
      if !ok {
        return Refused(InvalidArgument);
      }
      if section.Framing? {
        total := total + VarInt62.Len(RESPONSE_FRAMING);
      }
      if code.Some? {
        total := total + VarInt62.Len(code.value);
      }
      var writer := new QuicheDataWriter(total);
      ok := WritePrefix(writer, code);
      if !ok {
        return Refused(Internal);
      }
      ok := EncodeFields(fields, writer);
      if !ok {
        return Refused(Internal);
      }
      if writer.length != writer.buffer.Length {
        return Refused(Internal);
      }
      r := Encoded(writer.buffer[..]);
    }

    method WritePrefix(writer: QuicheDataWriter, code: Option<nat>) returns (ok: bool)
      requires code.Some? ==> code.value < VarInt62.LIMIT
      requires code.None? ==> !section.Framing?
      requires writer.Valid() && |Prefix(section, code)| <= writer.Room()
      modifies this, writer, writer.buffer
      ensures writer.Valid() && ok
      ensures section == if old(section).Framing? then StatusCode else old(section)
      ensures writer.Written() == old(writer.Written()) + Prefix(old(section), code)
    {
      hide VarInt62.Encode;
      ok := true;
      if section.Framing? {
        ok := writer.WriteVarInt62(RESPONSE_FRAMING);
        if !ok {
          return;
        }
        section := StatusCode;
      }
      if code.Some? {
        ok := writer.WriteVarInt62(code.value);
      }
    }

    method EncodeInformationalResponse(code: nat, fields: seq<Field>) returns (r: Encoded)
      requires code < 0x1_0000
      modifies this
      ensures (section, r) == Encode(old(section), InformationalCall(code, fields))
    {
      if !section.Framing? && !section.StatusCode? {
        section := End;
        return Refused(InvalidArgument);
      }
      if code < 100 || code > 199 {
        section := End;
        return Refused(InvalidArgument);
      }
      r := EncodeFieldSection(Some(code), fields);
      if !r.Encoded? {
        section := End;
      }
      section := StatusCode;
    }

    method EncodeHeaders(code: nat, headers: seq<Field>) returns (r: Encoded)
      requires code < 0x1_0000
      modifies this
      ensures (section, r) == Encode(old(section), FinalHeadersCall(code, headers))
    {
      if !section.Framing? && !section.StatusCode? {
        section := End;
        return Refused(InvalidArgument);
      }
      if code < 200 || code > 599 {
        section := End;
        return Refused(InvalidArgument);
      }
      r := EncodeFieldSection(Some(code), headers);
      section := if r.Encoded? then Body else End;
    }

    method EncodeBodyChunks(chunks: seq<seq<byte>>, done: bool) returns (r: Encoded)
      modifies this
      ensures (section, r) == Encode(old(section), BodyCall(chunks, done))
    {
      if !section.Body? {
        section := End;
        return Refused(InvalidArgument);
      }
      r := EncodeBodyChunksImpl(chunks, done);
      if !r.Encoded? {
        section := End;
      } else if done {
        section := Trailer;
      }
    }

    method EncodeTrailers(trailers: seq<Field>) returns (r: Encoded)
      modifies this
      ensures (section, r) == Encode(old(section), TrailersCall(trailers))
    {
      if !section.Trailer? {
        section := End;
        return Refused(InvalidArgument);
      }
      r := EncodeFieldSection(None, trailers);
      assert r.Encoded? ==> r.data == SectionBytes(trailers);
      section := End;
    }
  }
}
