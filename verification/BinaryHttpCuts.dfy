/** A complete message that stops anywhere: where that is accepted. */
module BinaryHttpCuts {
  import opened Bytes
  import VarInt62
  import opened DataWriter
  import opened BinaryHttpStream
  import opened BinaryHttpEncoder
  import opened BinaryHttpRoundTrip
  import BinaryHttpSplit

  // ---------------------------------------------------------------------------------------------
  // In the middle of a call

  /** A part of an entry is not enough. */
  lemma PartOfUnit(sec: Section, c: seq<byte>, s: seq<byte>, k: nat)
    requires k < |c| && NextUnit(sec, c + s).Unit? && NextUnit(sec, c + s).rest == s
    ensures NextUnit(sec, c[..k]).NotYet?
  {
    hide NextUnit;
    var t, u := c[..k], c[k..] + s;
    assert t + u == c + s;
    if !NextUnit(sec, t).NotYet? {
      BinaryHttpSplit.UnitExtends(sec, t, u);
    }
  }

  lemma WaitsInside(h: Handler, sec: Section, entered: bool, t: seq<byte>, trace: seq<Event>)
    requires t != [] && NextUnit(sec, t).NotYet?
    ensures Run(h, true, sec, entered, t, trace) == Outcome(trace, Waiting(sec, entered, t))
  {
    hide NextUnit;
  }

  /** The stream has not come to an end it may have. */
  predicate Unfinished(r: Result) {
    r.Waiting? && !r.section.Padding?
  }

  lemma {:induction false} FieldsCut(h: Handler, sec: Section, entered: bool, fields: seq<Field>, k: nat,
                                     trace: seq<Event>)
    requires AcceptsAll(h) && IsFieldSection(sec) && FieldsFit(fields) && Named(fields)
    requires k < |SectionBytes(fields)| && (k == 0 && entered ==> !sec.Trailer?)
    ensures Unfinished(Run(h, true, sec, entered, SectionBytes(fields)[..k], trace).result)
    decreases |fields|
  {
    hide Run, NextUnit, FieldBytes;
    var bytes := SectionBytes(fields);
    if k == 0 {
      assert bytes[..k] == [];
      EndsIn(h, sec, entered, trace);
    } else if fields != [] {
      var f, others := fields[0], fields[1..];
      var c, s := FieldBytes(f), SectionBytes(others);
      assert bytes == c + s;
      FieldUnit(sec, f, s);
      if k < |c| {
        PartOfUnit(sec, c, s, k);
        assert bytes[..k] == c[..k];
        WaitsInside(h, sec, entered, bytes[..k], trace);
      } else {
        var t := s[..k - |c|];
        assert bytes[..k] == c + t;
        FieldUnit(sec, f, t);
        RunStep(h, true, sec, entered, c + t, trace);
        FieldsCut(h, sec, false, others, k - |c|, trace + [FieldEvent(sec, LowerField(f))]);
      }
    }
  }

  lemma {:induction false} BodyCut(h: Handler, entered: bool, chunks: seq<seq<byte>>, done: bool, k: nat,
                                   trace: seq<Event>)
    requires AcceptsAll(h) && ChunksFit(chunks) && k < |BodyBytes(chunks, done)| && (k > 0 || !entered)
    ensures Unfinished(Run(h, true, Body, entered, BodyBytes(chunks, done)[..k], trace).result)
    decreases |chunks|
  {
    hide Run, NextUnit, VarInt62.EncodeString;
    var bytes := BodyBytes(chunks, done);
    if k == 0 {
      assert bytes[..k] == [];
      EndsIn(h, Body, entered, trace);
    } else if chunks != [] {
      var c, others := chunks[0], chunks[1..];
      var s := BodyBytes(others, done);
      if c == [] {
        assert bytes == s;
        BodyCut(h, entered, others, done, k, trace);
      } else {
        var e := VarInt62.EncodeString(c);
        assert bytes == e + s;
        ChunkUnit(c, s);
        if k < |e| {
          PartOfUnit(Body, e, s, k);
          assert bytes[..k] == e[..k];
          WaitsInside(h, Body, entered, bytes[..k], trace);
        } else {
          var t := s[..k - |e|];
          assert bytes[..k] == e + t;
          ChunkUnit(c, t);
          RunStep(h, true, Body, entered, e + t, trace);
          BodyCut(h, false, others, done, k - |e|, trace + [OnBodyChunk(c)]);
        }
      }
    }
  }

  lemma ControlCut(h: Handler, entered: bool, c: ControlData, k: nat, trace: seq<Event>)
    requires ControlFits(c) && 0 < k < |ControlBytes(c)|
    ensures Unfinished(Run(h, true, Control, entered, ControlBytes(c)[..k], trace).result)
  {
    hide Run, NextUnit, ControlBytes;
    ControlDataUnit(c, []);
    PartOfUnit(Control, ControlBytes(c), [], k);
    WaitsInside(h, Control, entered, ControlBytes(c)[..k], trace);
  }

  lemma StatusUnitIs(code: nat, s: seq<byte>)
    requires 100 <= code <= 599
    ensures NextUnit(StatusCode, VarInt62.Encode(code) + s) == StatusUnit(code, s)
    ensures NextUnit(Framing, VarInt62.Encode(RESPONSE_FRAMING) + s) == Unit([], StatusCode, s)
  {
    hide VarInt62.Read, VarInt62.Encode;
    VarInt62.ReadEncode(code, s);
    VarInt62.ReadEncode(RESPONSE_FRAMING, s);
  }

  lemma StatusCut(h: Handler, entered: bool, code: nat, fields: seq<Field>, k: nat, trace: seq<Event>)
    requires AcceptsAll(h) && 100 <= code <= 599 && FieldsFit(fields) && Named(fields)
    requires k < |VarInt62.Encode(code) + SectionBytes(fields)|
    ensures var s := VarInt62.Encode(code) + SectionBytes(fields);
            Unfinished(Run(h, true, StatusCode, entered, s[..k], trace).result)
  {
    hide Run, NextUnit, SectionBytes, VarInt62.Encode;
    var e, s := VarInt62.Encode(code), SectionBytes(fields);
    var bytes := e + s;
    if k == 0 {
      assert bytes[..k] == [];
      EndsIn(h, StatusCode, entered, trace);
    } else if k < |e| {
      StatusUnitIs(code, s);
      PartOfUnit(StatusCode, e, s, k);
      assert bytes[..k] == e[..k];
      WaitsInside(h, StatusCode, entered, bytes[..k], trace);
    } else {
      var t := s[..k - |e|];
      assert bytes[..k] == e + t;
      StatusUnitIs(code, t);
      RunStep(h, true, StatusCode, entered, e + t, trace);
      var u := StatusUnit(code, t);
      FieldsCut(h, u.next, true, fields, k - |e|, trace + u.events);
    }
  }

  lemma ResponseCut(h: Handler, sec: Section, entered: bool, code: nat, fields: seq<Field>, k: nat, trace: seq<Event>)
    requires AcceptsAll(h) && (sec.Framing? || sec.StatusCode?)
    requires 100 <= code <= 599 && FieldsFit(fields) && Named(fields)
    requires 0 < k < |ResponsePrefix(sec, code) + SectionBytes(fields)|
    ensures var s := ResponsePrefix(sec, code) + SectionBytes(fields);
            Unfinished(Run(h, true, sec, entered, s[..k], trace).result)
  {
    OneByteFraming();
    hide Run, NextUnit, SectionBytes, VarInt62.Encode;
    var s := VarInt62.Encode(code) + SectionBytes(fields);
    var bytes := ResponsePrefix(sec, code) + SectionBytes(fields);
    if sec.Framing? {
      var e := VarInt62.Encode(RESPONSE_FRAMING);
      assert bytes == e + s;
      var t := s[..k - 1];
      assert bytes[..k] == e + t;
      StatusUnitIs(code, t);
      RunStep(h, true, Framing, entered, e + t, trace);
      StatusCut(h, true, code, fields, k - 1, trace + []);
    } else {
      assert bytes == s;
      StatusCut(h, entered, code, fields, k, trace);
    }
  }

  lemma OneByteFraming()
    ensures |VarInt62.Encode(RESPONSE_FRAMING)| == 1
  {
  }

  /** In the middle of what one call wrote the message never ends. */
  lemma CallCut(h: Handler, sec: Section, entered: bool, call: Call, k: nat, trace: seq<Event>)
    requires AcceptsAll(h) && CallNamed(call) && Encode(sec, call).1.Encoded?
    requires 0 < k < |Encode(sec, call).1.data|
    ensures Unfinished(Run(h, true, sec, entered, Encode(sec, call).1.data[..k], trace).result)
  {
    hide Run, SectionBytes, ControlBytes, BodyBytes, ResponsePrefix, Unfinished;
    hide FieldsFit, ChunksFit, ControlFits, Named;
    match call
    case ControlCall(control) => ControlCut(h, entered, control, k, trace);
    case HeadersCall(fields) => FieldsCut(h, sec, entered, fields, k, trace);
    case InformationalCall(code, fields) => ResponseCut(h, sec, entered, code, fields, k, trace);
    case FinalHeadersCall(code, fields) => ResponseCut(h, sec, entered, code, fields, k, trace);
    case BodyCall(chunks, done) => BodyCut(h, entered, chunks, done, k, trace);
    case TrailersCall(fields) => FieldsCut(h, sec, entered, fields, k, trace);
  }

  // ---------------------------------------------------------------------------------------------
  // Anywhere in a message

  /** After these calls the body or the trailers are due, and may be left off. */
  predicate EndsSection(call: Call) {
    call.HeadersCall? || call.FinalHeadersCall? || (call.BodyCall? && call.done)
  }

  /** The bytes of the first `i` calls are `k`, and a section ends with them. */
  predicate EndAt(sec: Section, calls: seq<Call>, i: nat, k: int) {
    && 0 < i < |calls| && EndsSection(calls[i - 1])
    && EncodeAll(sec, calls[..i]).Some? && |EncodeAll(sec, calls[..i]).value.1| == k
  }

  /** `k` is where the bytes of the calls up to the headers end, or of the calls up to the end of the body. */
  ghost predicate IsSectionEnd(sec: Section, calls: seq<Call>, k: int) {
    exists i: nat :: EndAt(sec, calls, i, k)
  }

  lemma SectionAfter(sec: Section, call: Call)
    requires Encode(sec, call).1.Encoded? && !Encode(sec, call).0.End?
    ensures var next := Encode(sec, call).0;
            (EnteredAfter(call) && (next.Body? || next.Trailer?)) <==> EndsSection(call)
    ensures !Encode(sec, call).0.Padding?
  {
    hide ControlBytes, SectionBytes, BodyBytes, ResponsePrefix, FieldsFit, ChunksFit, ControlFits;
  }

  lemma EndAtOne(sec: Section, calls: seq<Call>, k: int)
    requires calls != [] && EncodeAll(sec, calls).Some?
    ensures EndAt(sec, calls, 1, k) <==> |calls| > 1 && EndsSection(calls[0]) && k == |Encode(sec, calls[0]).1.data|
  {
    hide Encode, EndsSection;
    var one := calls[..1];
    assert one[0] == calls[0] && one[1..] == [];
    var (next, r) := Encode(sec, calls[0]);
    assert EncodeAll(next, one[1..]) == Some((next, []));
  }

  lemma EndAtLater(sec: Section, calls: seq<Call>, i: nat, k: int)
    requires 1 < i < |calls| && EncodeAll(sec, calls).Some?
    ensures var (next, r) := Encode(sec, calls[0]);
            EndAt(sec, calls, i, k) <==> EndAt(next, calls[1..], i - 1, k - |r.data|)
  {
    hide Encode, EndsSection;
    var some := calls[..i];
    assert some[0] == calls[0] && some[1..] == calls[1..][..i - 1];
    assert calls[1..][i - 2] == calls[i - 1];
  }

  lemma SectionEndCons(sec: Section, calls: seq<Call>, k: int)
    requires calls != [] && EncodeAll(sec, calls).Some?
    ensures var (next, r) := Encode(sec, calls[0]);
            IsSectionEnd(sec, calls, k)
            <==> || (|calls| > 1 && EndsSection(calls[0]) && k == |r.data|)
                 || IsSectionEnd(next, calls[1..], k - |r.data|)
  {
    hide Encode, EndsSection;
    var (next, r) := Encode(sec, calls[0]);
    EndAtOne(sec, calls, k);
    hide EndAt;
    if IsSectionEnd(sec, calls, k) {
      var i: nat :| EndAt(sec, calls, i, k);
      EndAtInside(sec, calls, i, k);
      if i > 1 {
        EndAtLater(sec, calls, i, k);
      }
    }
    if IsSectionEnd(next, calls[1..], k - |r.data|) {
      var j: nat :| EndAt(next, calls[1..], j, k - |r.data|);
      EndAtInside(next, calls[1..], j, k - |r.data|);
      EndAtLater(sec, calls, j + 1, k);
    }
  }

  lemma EndAtInside(sec: Section, calls: seq<Call>, i: nat, k: int)
    ensures EndAt(sec, calls, i, k) ==> 0 < i < |calls|
  {
  }

  /** Whether a stream that stops after `k` bytes may end there, given how it was before them. */
  ghost predicate MayStop(sec: Section, entered: bool, calls: seq<Call>, k: nat) {
    if k == 0 then entered && (sec.Body? || sec.Trailer?) else IsSectionEnd(sec, calls, k)
  }

  lemma {:induction false} CallsCut(h: Handler, sec: Section, entered: bool, calls: seq<Call>, k: nat,
                                    trace: seq<Event>)
    requires AcceptsAll(h) && AllNamed(calls) && EncodeAll(sec, calls).Some? && !sec.End? && !sec.Padding?
    requires k < |EncodeAll(sec, calls).value.1|
    ensures var r := Run(h, true, sec, entered, EncodeAll(sec, calls).value.1[..k], trace).result;
            if MayStop(sec, entered, calls, k) then r.Truncated? else Unfinished(r)
    decreases |calls|
  {
    hide Run, Encode, CallEvents, EndsSection, CallNamed, IsSectionEnd;
    var (sec1, r) := Encode(sec, calls[0]);
    var data := EncodeAll(sec, calls).value.1;
    var others := EncodeAll(sec1, calls[1..]).value.1;
    assert data == r.data + others;
    SectionEndCons(sec, calls, k);
    if k == 0 {
      assert data[..k] == [];
      EndsIn(h, sec, entered, trace);
    } else if k < |r.data| {
      assert data[..k] == r.data[..k];
      NoSectionEndAtZero(sec1, calls[1..], k - |r.data|);
      CallCut(h, sec, entered, calls[0], k, trace);
    } else {
      var t := others[..k - |r.data|];
      assert data[..k] == r.data + t;
      CallRun(h, true, sec, entered, calls[0], t, trace);
      AfterTheEnd(sec1, calls[1]);
      SectionAfter(sec, calls[0]);
      NoSectionEndAtZero(sec1, calls[1..], if k <= |r.data| then k - |r.data| else 0);
      CallsCut(h, sec1, EnteredAfter(calls[0]), calls[1..], k - |r.data|, trace + CallEvents(calls[0]));
    }
  }

  lemma NoSectionEndAtZero(sec: Section, calls: seq<Call>, k: int)
    requires k <= 0
    ensures !IsSectionEnd(sec, calls, k)
  {
    forall i: nat ensures !EndAt(sec, calls, i, k) {
      if 0 < i < |calls| && EncodeAll(sec, calls[..i]).Some? {
        CallWrites(sec, calls[0]);
        hide Encode;
        assert calls[..i][0] == calls[0];
      }
    }
  }

  lemma CallWrites(sec: Section, call: Call)
    ensures Encode(sec, call).1.Encoded? ==> Encode(sec, call).1.data != []
  {
    hide FieldsBytes, TwoBytes;
  }

  lemma {:induction false} PaddingRun(h: Handler, entered: bool, n: nat, trace: seq<Event>)
    requires AcceptsAll(h)
    ensures var r := Run(h, true, Padding, entered, Zeros(n), trace).result; r.Waiting? && r.section.Padding?
    decreases n
  {
    if n == 0 {
      assert Zeros(0) == [];
      EndsIn(h, Padding, entered, trace);
    } else {
      var s := Zeros(n);
      assert s[1..] == Zeros(n - 1) && s[0] == 0;
      assert NextUnit(Padding, s) == Unit([], Padding, s[1..]);
      hide NextUnit, Run;
      RunStep(h, true, Padding, entered, s, trace);
      PaddingRun(h, false, n - 1, trace + []);
    }
  }

  /** A complete message with padding, stopped after `k` bytes and given in one last call: it is accepted if and
      only if it stops after the headers, after the body or in the padding, and is an error anywhere else. */
  lemma CutAnywhere(h: Handler, start: Section, calls: seq<Call>, padding: nat, k: nat)
    requires AcceptsAll(h) && (start.Control? || start.Framing?)
    requires EncodeAll(start, calls).Some? && EncodeAll(start, calls).value.0.End? && AllNamed(calls)
    requires k <= |EncodeAll(start, calls).value.1| + padding
    ensures var message := EncodeAll(start, calls).value.1 + Zeros(padding);
            Decode(h, Fresh(start), message[..k], true).1
            == if k >= |EncodeAll(start, calls).value.1| || IsSectionEnd(start, calls, k) then Ok else InvalidArgument
  {
    hide Run, EncodeAll, AllNamed, IsSectionEnd;
    var data := EncodeAll(start, calls).value.1;
    var message := data + Zeros(padding);
    assert [] + message[..k] == message[..k];
    if k < |data| {
      assert message[..k] == data[..k];
      CallsCut(h, start, true, calls, k, []);
      NoSectionEndAtZero(start, calls, 0);
    } else {
      var n := k - |data|;
      assert message[..k] == data + Zeros(n);
      CallsRun(h, true, start, true, calls, Zeros(n), []);
      PaddingRun(h, if calls == [] then true else EnteredAfter(calls[|calls| - 1]), n, [] + Events(calls));
    }
  }
}
