/** Known-length requests and responses as objects that are built up, measured, written and read. */
module BinaryHttpMessage {
  import opened Bytes
  import VarInt62
  import opened DataReader
  import opened DataWriter
  import opened BinaryHttpStream
  import opened BinaryHttpEncoder
  import opened BinaryHttpKnownLength
  import BinaryHttpDecoder

  // ---------------------------------------------------------------------------------------------
  // Field lists

  lemma {:induction false} ListSizeSnoc(fields: seq<Field>, k: nat)
    requires k < |fields|
    ensures ListSize(fields[..k + 1]) ==
            ListSize(fields[..k]) + VarInt62.Len(|fields[k].name|) + |fields[k].name|
            + VarInt62.Len(|fields[k].value|) + |fields[k].value|
    decreases k
  {
    if k == 0 {
      assert fields[..1][1..] == [];
    } else {
      ListSizeSnoc(fields[1..], k - 1);
      assert fields[..k + 1][1..] == fields[1..][..k];
      assert fields[..k][1..] == fields[1..][..k - 1];
    }
  }

  lemma {:induction false} ListSizeMonotone(fields: seq<Field>, k: nat)
    requires k <= |fields|
    ensures ListSize(fields[..k]) <= ListSize(fields)
    decreases |fields| - k
  {
    if k < |fields| {
      ListSizeSnoc(fields, k);
      ListSizeMonotone(fields, k + 1);
    } else {
      assert fields[..k] == fields;
    }
  }

  lemma {:induction false} ListBytesSnoc(fields: seq<Field>, k: nat)
    requires k < |fields| && FieldsFit(fields[..k + 1])
    ensures ListBytes(fields[..k + 1]) == ListBytes(fields[..k]) + TwoBytes(fields[k].name, fields[k].value)
    decreases k
  {
    hide TwoBytes;
    assert fields[..k + 1][k] == fields[k];
    if k == 0 {
      assert fields[..1][1..] == [];
    } else {
      assert fields[..k + 1][1..] == fields[1..][..k];
      assert fields[..k][1..] == fields[1..][..k - 1];
      ListBytesSnoc(fields[1..], k - 1);
    }
  }

  method EncodedFieldsSize(fields: seq<Field>) returns (size: nat)
    ensures size == ListSize(fields)
  {
    size := 0;
    for k := 0 to |fields|
      invariant size == ListSize(fields[..k])
    {
      ListSizeSnoc(fields, k);
      var n1 := StringPieceVarInt62Len(fields[k].name);
      var n2 := StringPieceVarInt62Len(fields[k].value);
      size := size + n1 + n2;
    }
    assert fields[..|fields|] == fields;
  }

  method EncodedListSize(fields: seq<Field>) returns (size: nat)
    ensures size == VarInt62.Len(ListSize(fields)) + ListSize(fields)
  {
    size := EncodedFieldsSize(fields);
    size := size + VarInt62.Len(size);
  }

  /** Into a buffer that was measured for it, a list is written unless one of its lengths is out of range. */
  method EncodeList(fields: seq<Field>, writer: QuicheDataWriter) returns (ok: bool)
    requires writer.Valid() && VarInt62.Len(ListSize(fields)) + ListSize(fields) <= writer.Room()
    modifies writer, writer.buffer
    ensures writer.Valid() && ok == ListFits(fields)
    ensures ok ==> writer.Written() == old(writer.Written()) + SizedListBytes(fields)
  {
    hide ListBytes, VarInt62.Encode;
    var size := EncodedFieldsSize(fields);
    ok := writer.WriteVarInt62(size);
    if ok {
      ok := WriteFields(fields, writer);
    }
  }

  method WriteFields(fields: seq<Field>, writer: QuicheDataWriter) returns (ok: bool)
    requires writer.Valid() && ListSize(fields) <= writer.Room()
    modifies writer, writer.buffer
    ensures writer.Valid() && ok == FieldsFit(fields)
    ensures ok ==> writer.Written() == old(writer.Written()) + ListBytes(fields)
  {
    hide TwoBytes, ListBytes, ListSize, VarInt62.Len, FieldsFit;
    NoFieldsFit(fields);
    for k := 0 to |fields|
      invariant writer.Valid() && FieldsFit(fields[..k])
      invariant writer.Written() == old(writer.Written()) + ListBytes(fields[..k])
    {
      ListBytesSize(fields[..k]);
      ListSizeSnoc(fields, k);
      ListSizeMonotone(fields, k + 1);
      ok := WriteTwo(writer, fields[k].name, fields[k].value);
      FieldsFitSnoc(fields, k);
      if !ok {
        return;
      }
      ListBytesSnoc(fields, k);
    }
    assert fields[..|fields|] == fields;
    ok := true;
  }

  lemma NoFieldsFit(fields: seq<Field>)
    ensures FieldsFit(fields[..0]) && ListBytes(fields[..0]) == []
  {
  }

  lemma FieldsFitSnoc(fields: seq<Field>, k: nat)
    requires k < |fields|
    ensures FieldsFit(fields[..k + 1]) <==> FieldsFit(fields[..k]) && FieldFits(fields[k])
    ensures FieldsFit(fields) ==> FieldFits(fields[k])
  {
    assert fields[..k + 1] == fields[..k] + [fields[k]];
  }

  /** Reads a list and hands out its fields as they were written. */
  method DecodeFields(reader: QuicheDataReader) returns (ok: bool, fields: seq<Field>)
    requires reader.Valid()
    modifies reader
    ensures reader.Valid()
    ensures ok == ParseSizedList(old(reader.Remaining())).Some?
    ensures ok ==> ParseSizedList(old(reader.Remaining())) == Some((LowerAll(fields), reader.Remaining()))
  {
    hide VarInt62.ReadString, ParseList;
    fields := [];
    var list;
    ok, list := reader.ReadStringPieceVarInt62();
    if ok {
      ok, fields := DecodeList(list);
    }
  }

  method DecodeList(list: seq<byte>) returns (ok: bool, fields: seq<Field>)
    ensures ok == ParseList(list).Some?
    ensures ok ==> ParseList(list) == Some(LowerAll(fields))
  {
    hide VarInt62.ReadString, Lower, LowerField, LowerAll, ParseList, Prepend;
    fields := [];
    var reader := new QuicheDataReader(list);
    var done := reader.IsDoneReading();
    PrependNothing(ParseList(list));
    while !done
      invariant reader.Valid() && fresh(reader) && done == (reader.Remaining() == [])
      invariant ParseList(list) == Prepend(LowerAll(fields), ParseList(reader.Remaining()))
      decreases |reader.Remaining()|
    {
      ghost var s := reader.Remaining();
      var ok1, name := reader.ReadStringPieceVarInt62();
      if !ok1 {
        NoField(LowerAll(fields), s);
        return false, fields;
      }
      var ok2, value := reader.ReadStringPieceVarInt62();
      if !ok2 {
        NoField(LowerAll(fields), s);
        return false, fields;
      }
      OneField(s);
      LowerAllSnoc(fields, Field(name, value));
      PrependTwice(LowerAll(fields), LowerField(Field(name, value)), ParseList(reader.Remaining()));
      fields := fields + [Field(name, value)];
      done := reader.IsDoneReading();
    }
    PrependToNone(LowerAll(fields));
    ok := true;
  }

  /** A field at the front of a list that is complete. */
  lemma OneField(s: seq<byte>)
    requires s != [] && VarInt62.ReadString(s).Got? && VarInt62.ReadString(VarInt62.ReadString(s).rest).Got?
    ensures var name := VarInt62.ReadString(s);
            var value := VarInt62.ReadString(name.rest);
            ParseList(s) == Prepend([LowerField(Field(name.value, value.value))], ParseList(value.rest))
  {
    hide VarInt62.ReadString, Lower;
  }

  lemma NoField(a: seq<Field>, s: seq<byte>)
    requires s != [] && (VarInt62.ReadString(s).Got? ==> VarInt62.ReadString(VarInt62.ReadString(s).rest).Short?)
    ensures Prepend(a, ParseList(s)) == None
  {
    hide VarInt62.ReadString, Lower;
  }

  lemma PrependToNone(a: seq<Field>)
    ensures Prepend(a, ParseList([])) == Some(a)
  {
    assert a + [] == a;
  }

  function Prepend<T>(a: seq<T>, r: Option<seq<T>>): Option<seq<T>> {
    if r.None? then None else Some(a + r.value)
  }

  lemma PrependNothing(r: Option<seq<Field>>)
    ensures r == Prepend(LowerAll([]), r)
  {
    if r.Some? {
      assert LowerAll([]) + r.value == r.value;
    }
  }

  lemma PrependTwice<T>(a: seq<T>, x: T, r: Option<seq<T>>)
    ensures Prepend(a, Prepend([x], r)) == Prepend(a + [x], r)
  {
    if r.Some? {
      assert a + ([x] + r.value) == a + [x] + r.value;
    }
  }

  function LowerAll(fields: seq<Field>): (r: seq<Field>)
    ensures |r| == |fields|
    ensures forall i :: 0 <= i < |fields| ==> r[i] == LowerField(fields[i])
  {
    seq(|fields|, i requires 0 <= i < |fields| => LowerField(fields[i]))
  }

  lemma LowerAllSnoc(fields: seq<Field>, f: Field)
    ensures LowerAll(fields + [f]) == LowerAll(fields) + [LowerField(f)]
  {
  }

  // ---------------------------------------------------------------------------------------------
  // What requests and responses have in common

  class Message {
    var fields: seq<Field>
    var hasHost: bool
    var body: seq<byte>
    var padding: nat

    ghost predicate Valid()
      reads this
    {
      LowerNames(fields) && (hasHost <==> HasHost(fields))
    }

    constructor ()
      ensures Valid() && Abstract() == Content([], [], 0)
    {
      fields, hasHost, body, padding := [], false, [], 0;
    }

    function Abstract(): (c: Content)
      reads this
    {
      Content(fields, body, padding)
    }

    method AddHeaderField(f: Field)
      requires Valid()
      modifies this
      ensures Valid()
      ensures Abstract() == old(Abstract()).(fields := old(fields) + [LowerField(f)])
    {
      var lowerName := Lower(f.name);
      LowerTwice(f.name);
      if lowerName == HOST {
        hasHost := true;
      }
      ghost var before := fields;
      fields := fields + [Field(lowerName, f.value)];
      assert HasHost(before) ==> HasHost(fields) by {
        if HasHost(before) {
          var i :| 0 <= i < |before| && before[i].name == HOST;
          assert fields[i].name == HOST;
        }
      }
      assert fields[|before|].name == lowerName;
    }

    method AddAll(fs: seq<Field>)
      requires Valid()
      modifies this
      ensures Valid()
      ensures Abstract() == old(Abstract()).(fields := old(fields) + LowerAll(fs))
    {
      for k := 0 to |fs|
        invariant Valid()
        invariant Abstract() == old(Abstract()).(fields := old(fields) + LowerAll(fs[..k]))
      {
        assert fs[..k + 1] == fs[..k] + [fs[k]];
        LowerAllSnoc(fs[..k], fs[k]);
        AddHeaderField(fs[k]);
      }
      assert fs[..|fs|] == fs;
    }

    method EncodedKnownLengthFieldsAndBodySize() returns (size: nat)
      ensures size == PartsSize(Abstract())
    {
      var n1 := EncodedListSize(fields);
      var n2 := StringPieceVarInt62Len(body);
      size := n1 + n2;
    }

    method EncodeKnownLengthFieldsAndBody(writer: QuicheDataWriter) returns (ok: bool)
      requires writer.Valid()
      requires PartsSize(Abstract()) <= writer.Room()
      modifies writer, writer.buffer
      ensures writer.Valid() && ok == ContentFits(Abstract())
      ensures ok ==> writer.Written() == old(writer.Written()) + ContentBytes(Abstract())
    {
      hide SizedListBytes, VarInt62.EncodeString;
      ok := EncodeList(fields, writer);
      if ok {
        SizedListSize(fields);
        ok := writer.WriteStringPieceVarInt62(body);
      }
    }

    /** The fields, and then the body unless the message stops before it; what is left is padding. */
    method DecodeFieldsAndBody(reader: QuicheDataReader) returns (ok: bool)
      requires reader.Valid() && Valid() && Abstract() == Content([], [], 0)
      modifies this, reader
      ensures Valid()
      ensures ok == ParseContent(old(reader.Remaining())).Some?
      ensures ok ==> ParseContent(old(reader.Remaining())) == Some(Abstract())
    {
      hide VarInt62.ReadString, ParseSizedList;
      var list;
      ok, list := DecodeFields(reader);
      if !ok {
        return;
      }
      AddAll(list);
      assert [] + LowerAll(list) == LowerAll(list);
      var done := reader.IsDoneReading();
      if !done {
        var b;
        ok, b := reader.ReadStringPieceVarInt62();
        if !ok {
          return;
        }
        body := b;
      }
      var rest := reader.PeekRemainingPayload();
      ok := BinaryHttpDecoder.IsValidPadding(rest);
      padding := |rest|;
    }
  }

  lemma SizedListSize(fields: seq<Field>)
    requires ListFits(fields)
    ensures |SizedListBytes(fields)| == VarInt62.Len(ListSize(fields)) + ListSize(fields)
  {
    ListBytesSize(fields);
  }

  lemma ContentSize(c: Content)
    requires ContentFits(c)
    ensures |ContentBytes(c)| == PartsSize(c)
  {
    SizedListSize(c.fields);
  }

  // ---------------------------------------------------------------------------------------------
  // Requests

  function ControlSize(c: ControlData): (n: nat) {
    VarInt62.Len(|c.verb|) + |c.verb| + VarInt62.Len(|c.scheme|) + |c.scheme|
    + VarInt62.Len(|c.authority|) + |c.authority| + VarInt62.Len(|c.path|) + |c.path|
  }

  function PartsSize(c: Content): (n: nat) {
    VarInt62.Len(ListSize(c.fields)) + ListSize(c.fields) + VarInt62.Len(|c.body|) + |c.body|
  }

  function RequestSize(r: Request): (n: nat) {
    VarInt62.Len(KNOWN_REQUEST) + ControlSize(WrittenControl(r)) + PartsSize(r.content) + r.content.padding
  }

  class BinaryHttpRequest {
    const control: ControlData
    const message: Message

    constructor (control: ControlData)
      ensures fresh(message) && message.Valid() && Abstract() == Request(control, Content([], [], 0))
    {
      this.control := control;
      message := new Message();
    }

    function Abstract(): (r: Request)
      reads message
    {
      Request(control, message.Abstract())
    }

    method EncodedControlDataSize() returns (size: nat)
      requires message.Valid()
      ensures size == ControlSize(WrittenControl(Abstract()))
    {
      var n1 := StringPieceVarInt62Len(control.verb);
      var n2 := StringPieceVarInt62Len(control.scheme);
      var n4 := StringPieceVarInt62Len(control.path);
      size := n1 + n2 + n4;
      var n3;
      if !message.hasHost {
        n3 := StringPieceVarInt62Len(control.authority);
      } else {
        n3 := StringPieceVarInt62Len([]);
      }
      size := size + n3;
    }

    /** The size that is announced is the size that is written. */
    method EncodedSize() returns (size: nat)
      requires message.Valid()
      ensures size == RequestSize(Abstract())
      ensures RequestFits(Abstract()) ==> size == |RequestBytes(Abstract())|
    {
      var n1 := EncodedControlDataSize();
      var n2 := message.EncodedKnownLengthFieldsAndBodySize();
      size := VarInt62.Len(KNOWN_REQUEST) + n1 + n2 + message.padding;
      if RequestFits(Abstract()) {
        ContentSize(message.Abstract());
      }
    }

    method EncodeControlData(writer: QuicheDataWriter) returns (ok: bool)
      requires message.Valid() && writer.Valid()
      requires ControlSize(WrittenControl(Abstract())) <= writer.Room()
      modifies writer, writer.buffer
      ensures writer.Valid() && ok == ControlFits(WrittenControl(Abstract()))
      ensures var c := WrittenControl(Abstract());
              ok ==>
                writer.Written() == old(writer.Written()) + (TwoBytes(c.verb, c.scheme) + TwoBytes(c.authority, c.path))
    {
      hide TwoBytes, HasHost;
      ok := WriteTwo(writer, control.verb, control.scheme);
      if ok {
        if !message.hasHost {
          ok := WriteTwo(writer, control.authority, control.path);
        } else {
          ok := WriteTwo(writer, [], control.path);
        }
      }
    }

    /** Writing succeeds unless a length is out of range, and fills the measured buffer exactly. */
    method Serialize() returns (r: Option<seq<byte>>)
      requires message.Valid()
      ensures r == if RequestFits(Abstract()) then Some(RequestBytes(Abstract())) else None
    {
      hide RequestBytes, RequestFits;
      var size := EncodedSize();
      var writer := new QuicheDataWriter(size);
      var ok := EncodeAsKnownLength(writer);
      if !ok {
        return None;
      }
      writer.WritePadding();
      assert writer.buffer[..] == writer.Written();
      r := Some(writer.buffer[..]);
    }

    /** Everything but the padding. */
    method EncodeAsKnownLength(writer: QuicheDataWriter) returns (ok: bool)
      requires message.Valid() && writer.Valid() && writer.Room() == RequestSize(Abstract()) && writer.Written() == []
      modifies writer, writer.buffer
      ensures writer.Valid() && ok == RequestFits(Abstract())
      ensures ok ==> writer.Written() + Zeros(message.padding) == RequestBytes(Abstract())
      ensures ok ==> writer.Room() == message.padding
    {
      hide VarInt62.Encode, TwoBytes, ContentBytes, HasHost, ListSize, ContentFits;
      ok := writer.WriteVarInt62(KNOWN_REQUEST);
      if ok {
        ok := EncodeControlData(writer);
        if ok {
          ok := message.EncodeKnownLengthFieldsAndBody(writer);
          if ok {
            ContentSize(message.Abstract());
          }
        }
      }
    }

    /** The request that `data` spells, if it spells one. */
    static method Create(data: seq<byte>) returns (r: Option<BinaryHttpRequest>)
      ensures r.Some? == ParseRequest(data).Some?
      ensures r.Some? ==> fresh(r.value) && r.value.message.Valid() && ParseRequest(data) == Some(r.value.Abstract())
    {
      hide VarInt62.Read, ParseAfterFraming, LowerNames, HasHost;
      var reader := new QuicheDataReader(data);
      var ok, framing := reader.ReadVarInt62();
      if !ok || framing != KNOWN_REQUEST {
        return None;
      }
      assert ParseRequest(data) == ParseAfterFraming(reader.Remaining());
      hide ParseRequest;
      r := DecodeKnownLengthRequest(reader);
    }

    static method DecodeKnownLengthRequest(reader: QuicheDataReader) returns (r: Option<BinaryHttpRequest>)
      requires reader.Valid()
      modifies reader
      ensures r.Some? == ParseAfterFraming(old(reader.Remaining())).Some?
      ensures r.Some? ==>
                && fresh(r.value) && r.value.message.Valid()
                && ParseAfterFraming(old(reader.Remaining())) == Some(r.value.Abstract())
    {
      hide ReadControlData, ParseContent;
      var ok, control := BinaryHttpDecoder.DecodeControlData(reader);
      if !ok {
        return None;
      }
      var request := new BinaryHttpRequest(control);
      var done := reader.IsDoneReading();
      if done {
        return Some(request);
      }
      ok := request.message.DecodeFieldsAndBody(reader);
      if !ok {
        return None;
      }
      r := Some(request);
    }
  }

  // ---------------------------------------------------------------------------------------------
  // Responses

  function InformationalSize(infos: seq<Informational>): (n: nat) {
    if infos == [] then 0
    else
      VarInt62.Len(infos[0].code) + VarInt62.Len(ListSize(infos[0].fields)) + ListSize(infos[0].fields)
      + InformationalSize(infos[1..])
  }

  function ResponseSize(r: Response): (n: nat) {
    VarInt62.Len(KNOWN_RESPONSE) + InformationalSize(r.informational) + VarInt62.Len(r.code)
    + PartsSize(r.content) + r.content.padding
  }

  lemma {:induction false} InformationalBytesSize(infos: seq<Informational>)
    requires InformationalFits(infos)
    ensures |InformationalBytes(infos)| == InformationalSize(infos)
    decreases |infos|
  {
    hide SizedListBytes;
    if infos != [] {
      SizedListSize(infos[0].fields);
      InformationalBytesSize(infos[1..]);
    }
  }

  class BinaryHttpResponse {
    const code: nat
    var informational: seq<Informational>
    const message: Message

    ghost predicate Valid()
      reads this, message
    {
      && message.Valid() && code < 0x1_0000 && InformationalNormal(informational)
    }

    constructor (code: nat)
      requires code < 0x1_0000
      ensures fresh(message) && Valid() && Abstract() == Response([], code, Content([], [], 0))
    {
      this.code := code;
      informational := [];
      message := new Message();
    }

    function Abstract(): (r: Response)
      reads this, message
    {
      Response(informational, code, message.Abstract())
    }

    method AddInformationalResponse(infoCode: nat, fields: seq<Field>) returns (ok: bool)
      requires Valid() && infoCode < 0x1_0000
      modifies this
      ensures Valid() && ok == InformationalCode(infoCode)
      ensures informational ==
              if ok then old(informational) + [Informational(infoCode, LowerAll(fields))] else old(informational)
    {
      if infoCode < 100 {
        return false;
      } else if infoCode > 199 {
        return false;
      }
      var lower := LowerFields(fields);
      LowerAllIsLower(fields);
      informational := informational + [Informational(infoCode, lower)];
      ok := true;
    }

    method EncodedInformationalSize() returns (size: nat)
      ensures size == InformationalSize(informational)
    {
      size := 0;
      var k := |informational|;
      while k > 0
        invariant 0 <= k <= |informational| && size == InformationalSize(informational[k..])
      {
        k := k - 1;
        assert informational[k..][1..] == informational[k + 1..];
        var n := EncodedListSize(informational[k].fields);
        size := VarInt62.Len(informational[k].code) + n + size;
      }
    }

    method EncodeInformational(writer: QuicheDataWriter) returns (ok: bool)
      requires Valid() && writer.Valid() && InformationalSize(informational) <= writer.Room()
      modifies writer, writer.buffer
      ensures writer.Valid() && ok == InformationalFits(informational)
      ensures ok ==> writer.Written() == old(writer.Written()) + InformationalBytes(informational)
    {
      hide OneBytes, LowerNames, ListFits, InformationalBytes, InformationalSize;
      assert informational[0..] == informational;
      NoInformational(informational);
      for k := 0 to |informational|
        invariant writer.Valid() && InformationalFits(informational[..k])
        invariant writer.Written() == old(writer.Written()) + InformationalBytes(informational[..k])
        invariant InformationalSize(informational[k..]) <= writer.Room()
      {
        InformationalSizeStep(informational, k);
        ok := EncodeOne(informational[k], writer);
        if !ok {
          return;
        }
        InformationalBytesSnoc(informational, k);
      }
      assert informational[..|informational|] == informational;
      ok := true;
    }

    static method EncodeOne(info: Informational, writer: QuicheDataWriter) returns (ok: bool)
      requires writer.Valid() && info.code < 0x1_0000
      requires VarInt62.Len(info.code) + VarInt62.Len(ListSize(info.fields)) + ListSize(info.fields) <= writer.Room()
      modifies writer, writer.buffer
      ensures writer.Valid() && ok == ListFits(info.fields)
      ensures ok ==>
                && writer.Written() == old(writer.Written()) + OneBytes(info)
                && writer.Room() == old(writer.Room()) - VarInt62.Len(info.code)
                                    - VarInt62.Len(ListSize(info.fields)) - ListSize(info.fields)
    {
      hide SizedListBytes, VarInt62.Encode;
      ok := writer.WriteVarInt62(info.code);
      ok := EncodeList(info.fields, writer);
      if ok {
        SizedListSize(info.fields);
      }
    }

    method EncodedSize() returns (size: nat)
      requires Valid()
      ensures ResponseFits(Abstract()) ==> size == |ResponseBytes(Abstract())|
      ensures size == ResponseSize(Abstract())
    {
      var n1 := EncodedInformationalSize();
      var n2 := message.EncodedKnownLengthFieldsAndBodySize();
      size := VarInt62.Len(KNOWN_RESPONSE) + n1 + VarInt62.Len(code) + n2 + message.padding;
      if ResponseFits(Abstract()) {
        InformationalBytesSize(informational);
        ContentSize(message.Abstract());
      }
    }

    method Serialize() returns (r: Option<seq<byte>>)
      requires Valid()
      ensures r == if ResponseFits(Abstract()) then Some(ResponseBytes(Abstract())) else None
    {
      hide ResponseBytes, ResponseFits;
      var size := EncodedSize();
      var writer := new QuicheDataWriter(size);
      var ok := EncodeAsKnownLength(writer);
      if !ok {
        return None;
      }
      writer.WritePadding();
      assert writer.buffer[..] == writer.Written();
      r := Some(writer.buffer[..]);
    }

    /** Everything but the padding. */
    method EncodeAsKnownLength(writer: QuicheDataWriter) returns (ok: bool)
      requires Valid() && writer.Valid() && writer.Room() == ResponseSize(Abstract()) && writer.Written() == []
      modifies writer, writer.buffer
      ensures writer.Valid() && ok == ResponseFits(Abstract())
      ensures ok ==> writer.Written() + Zeros(message.padding) == ResponseBytes(Abstract())
      ensures ok ==> writer.Room() == message.padding
    {
      hide VarInt62.Encode, ContentBytes, InformationalBytes, InformationalFits, InformationalNormal,
        ContentFits, InformationalSize, PartsSize;
      ok := EncodeBeforeContent(writer);
      if ok {
        ok := message.EncodeKnownLengthFieldsAndBody(writer);
        if ok {
          ContentSize(message.Abstract());
        }
      }
    }

    /** The framing indicator, the informational responses and the final status code. */
    method EncodeBeforeContent(writer: QuicheDataWriter) returns (ok: bool)
      requires Valid() && writer.Valid() && writer.Written() == []
      requires VarInt62.Len(KNOWN_RESPONSE) + InformationalSize(informational) + VarInt62.Len(code) <= writer.Room()
      modifies writer, writer.buffer
      ensures writer.Valid() && ok == InformationalFits(informational)
      ensures ok ==>
                && writer.Written()
                   == VarInt62.Encode(KNOWN_RESPONSE) + InformationalBytes(informational) + VarInt62.Encode(code)
                && writer.Room() == old(writer.Room()) - VarInt62.Len(KNOWN_RESPONSE)
                                    - InformationalSize(informational) - VarInt62.Len(code)
    {
      hide VarInt62.Encode, InformationalBytes, InformationalFits, InformationalNormal, InformationalSize;
      ok := writer.WriteVarInt62(KNOWN_RESPONSE);
      ok := EncodeInformational(writer);
      if ok {
        InformationalBytesSize(informational);
        ok := writer.WriteVarInt62(code);
      }
    }

    /** The response that `data` spells, if it spells one. */
    static method Create(data: seq<byte>) returns (r: Option<BinaryHttpResponse>)
      ensures r.Some? == ParseResponse(data).Some?
      ensures r.Some? ==> fresh(r.value) && r.value.Valid() && ParseResponse(data) == Some(r.value.Abstract())
    {
      hide VarInt62.Read, ParseResponseAfterFraming, InformationalNormal, LowerNames, HasHost;
      var reader := new QuicheDataReader(data);
      var ok, framing := reader.ReadVarInt62();
      if !ok || framing != KNOWN_RESPONSE {
        return None;
      }
      assert ParseResponse(data) == ParseResponseAfterFraming(reader.Remaining());
      hide ParseResponse;
      r := DecodeKnownLengthResponse(reader);
    }

    static method DecodeKnownLengthResponse(reader: QuicheDataReader) returns (r: Option<BinaryHttpResponse>)
      requires reader.Valid()
      modifies reader
      ensures r.Some? == ParseResponseAfterFraming(old(reader.Remaining())).Some?
      ensures r.Some? ==>
                && fresh(r.value) && r.value.Valid()
                && ParseResponseAfterFraming(old(reader.Remaining())) == Some(r.value.Abstract())
    {
      hide ParseInformational, ParseContent, InformationalNormal;
      var ok, infos, final := ReadInformational(reader);
      if !ok {
        return None;
      }
      var response := new BinaryHttpResponse(final % 0x1_0000);
      response.AddAllInformational(infos);
      ok := response.message.DecodeFieldsAndBody(reader);
      if !ok {
        return None;
      }
      r := Some(response);
    }

    method AddAllInformational(infos: seq<Informational>)
      requires Valid() && informational == []
      requires forall i :: 0 <= i < |infos| ==> InformationalCode(infos[i].code)
      modifies this
      ensures Valid() && informational == LowerInfos(infos)
    {
      hide InformationalNormal, LowerAll;
      for k := 0 to |infos|
        invariant Valid() && informational == LowerInfos(infos[..k])
      {
        assert infos[..k + 1] == infos[..k] + [infos[k]];
        LowerInfosSnoc(infos[..k], infos[k]);
        var added := AddInformationalResponse(infos[k].code, infos[k].fields);
      }
      assert infos[..|infos|] == infos;
    }
  }

  method LowerFields(fields: seq<Field>) returns (lower: seq<Field>)
    ensures lower == LowerAll(fields)
  {
    lower := [];
    for k := 0 to |fields|
      invariant lower == LowerAll(fields[..k])
    {
      assert fields[..k + 1] == fields[..k] + [fields[k]];
      LowerAllSnoc(fields[..k], fields[k]);
      lower := lower + [LowerField(fields[k])];
    }
    assert fields[..|fields|] == fields;
  }

  lemma LowerAllIsLower(fields: seq<Field>)
    ensures LowerNames(LowerAll(fields))
  {
    forall i | 0 <= i < |fields|
      ensures Lower(LowerAll(fields)[i].name) == LowerAll(fields)[i].name
    {
      LowerTwice(fields[i].name);
    }
  }

  lemma NoInformational(infos: seq<Informational>)
    ensures InformationalFits(infos[..0]) && InformationalBytes(infos[..0]) == []
  {
  }

  lemma InformationalSizeStep(infos: seq<Informational>, k: nat)
    requires k < |infos|
    ensures InformationalSize(infos[k..])
         == VarInt62.Len(infos[k].code) + VarInt62.Len(ListSize(infos[k].fields)) + ListSize(infos[k].fields)
            + InformationalSize(infos[k + 1..])
  {
    hide VarInt62.Len, ListSize;
    assert infos[k..][0] == infos[k] && infos[k..][1..] == infos[k + 1..];
  }

  lemma {:induction false} InformationalBytesSnoc(infos: seq<Informational>, k: nat)
    requires k < |infos| && InformationalFits(infos[..k]) && infos[k].code < 0x1_0000 && ListFits(infos[k].fields)
    ensures InformationalFits(infos[..k + 1])
    ensures InformationalBytes(infos[..k + 1]) ==
            InformationalBytes(infos[..k]) + OneBytes(infos[k])
    decreases k
  {
    hide OneBytes, ListFits;
    assert InformationalFits(infos[..k + 1]) by {
      assert infos[..k + 1] == infos[..k] + [infos[k]];
    }
    if k == 0 {
      assert infos[..1][1..] == [];
    } else {
      assert infos[..k + 1][1..] == infos[1..][..k];
      assert infos[..k][1..] == infos[1..][..k - 1];
      assert InformationalFits(infos[..k][1..]);
      InformationalBytesSnoc(infos[1..], k - 1);
    }
  }

  function LowerInfos(infos: seq<Informational>): (r: seq<Informational>)
    ensures |r| == |infos|
    ensures forall i :: 0 <= i < |infos| ==> r[i] == Informational(infos[i].code, LowerAll(infos[i].fields))
  {
    seq(|infos|, i requires 0 <= i < |infos| => Informational(infos[i].code, LowerAll(infos[i].fields)))
  }

  /** Informational responses with their names as received, and the status code that ends them. */
  method ReadInformational(reader: QuicheDataReader) returns (ok: bool, infos: seq<Informational>, final: nat)
    requires reader.Valid()
    modifies reader
    ensures reader.Valid()
    ensures ok == ParseInformational(old(reader.Remaining())).Some?
    ensures ok ==> ParseInformational(old(reader.Remaining())) == Some((LowerInfos(infos), final, reader.Remaining()))
    ensures ok ==> forall i :: 0 <= i < |infos| ==> InformationalCode(infos[i].code)
  {
    hide VarInt62.Read, ParseSizedList, LowerAll;
    infos, final := [], 0;
    ghost var s := reader.Remaining();
    PrependNoInfos(ParseInformational(s));
    while true
      invariant reader.Valid()
      invariant forall i :: 0 <= i < |infos| ==> InformationalCode(infos[i].code)
      invariant ParseInformational(s) == PrependInfos(LowerInfos(infos), ParseInformational(reader.Remaining()))
      decreases |reader.Remaining()|
    {
      ok, final := reader.ReadVarInt62();
      if !ok {
        return;
      }
      if final >= 100 && final <= 199 {
        var list;
        ok, list := DecodeFields(reader);
        if !ok {
          return;
        }
        LowerInfosSnoc(infos, Informational(final, list));
        PrependInfosTwice(LowerInfos(infos), Informational(final, LowerAll(list)),
                          ParseInformational(reader.Remaining()));
        infos := infos + [Informational(final, list)];
      } else {
        assert LowerInfos(infos) + [] == LowerInfos(infos);
        return;
      }
    }
  }

  type Infos = Option<(seq<Informational>, nat, seq<byte>)>

  function PrependInfos(a: seq<Informational>, r: Infos): Infos {
    if r.None? then None else Some((a + r.value.0, r.value.1, r.value.2))
  }

  lemma PrependNoInfos(r: Infos)
    ensures r == PrependInfos(LowerInfos([]), r)
  {
    if r.Some? {
      assert LowerInfos([]) + r.value.0 == r.value.0;
    }
  }

  lemma PrependInfosTwice(a: seq<Informational>, x: Informational, r: Infos)
    ensures PrependInfos(a, PrependInfos([x], r)) == PrependInfos(a + [x], r)
  {
    if r.Some? {
      assert a + ([x] + r.value.0) == a + [x] + r.value.0;
    }
  }

  lemma LowerInfosSnoc(infos: seq<Informational>, info: Informational)
    ensures LowerInfos(infos + [info]) == LowerInfos(infos) + [Informational(info.code, LowerAll(info.fields))]
  {
  }
}
