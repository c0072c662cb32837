/** What the encoders write is what the decoders report, however the bytes are cut. */
module BinaryHttpRoundTrip {
  import opened Bytes
  import VarInt62
  import opened BinaryHttpStream
  import opened BinaryHttpEncoder
  import BinaryHttpSplit
  import opened Sequences

  // ---------------------------------------------------------------------------------------------
  // Runs of an encoder and the callbacks they ask for

  /** A sequence of calls, all of them successful: the section reached and everything written. */
  function EncodeAll(sec: Section, calls: seq<Call>): (r: Option<(Section, seq<byte>)>)
    decreases |calls|
  {
    if calls == [] then Some((sec, []))
    else
      var (sec1, r1) := Encode(sec, calls[0]);
      if r1.Refused? then None
      else
        match EncodeAll(sec1, calls[1..])
        case None => None
        case Some((sec2, data)) => Some((sec2, r1.data + data))
  }

  function FieldEvents(sec: Section, fields: seq<Field>): (es: seq<Event>)
    requires IsFieldSection(sec)
    ensures |es| == |fields|
  {
    seq(|fields|, i requires 0 <= i < |fields| => FieldEvent(sec, LowerField(fields[i])))
  }

  function ChunkEvents(chunks: seq<seq<byte>>): (es: seq<Event>) {
    if chunks == [] then []
    else (if chunks[0] == [] then [] else [OnBodyChunk(chunks[0])]) + ChunkEvents(chunks[1..])
  }

  function CallEvents(call: Call): (es: seq<Event>) {
    match call
    case ControlCall(control) => [OnControlData(control)]
    case HeadersCall(fields) => FieldEvents(Header, fields) + [OnHeadersDone]
    case InformationalCall(code, fields) =>
      [OnInformationalStatusCode(code)] + (FieldEvents(InformationalHeader, fields) + [OnInformationalResponseDone])
    case FinalHeadersCall(code, fields) =>
      [OnInformationalSectionDone, OnFinalStatusCode(code)] + (FieldEvents(FinalHeader, fields) + [OnFinalHeadersDone])
    case BodyCall(chunks, done) => ChunkEvents(chunks) + if done then [OnBodyChunksDone] else []
    case TrailersCall(fields) => FieldEvents(Trailer, fields) + [OnTrailersDone]
  }

  function Events(calls: seq<Call>): (es: seq<Event>) {
    if calls == [] then [] else CallEvents(calls[0]) + Events(calls[1..])
  }

  predicate Named(fields: seq<Field>) {
    forall i :: 0 <= i < |fields| ==> fields[i].name != []
  }

  predicate CallNamed(call: Call) {
    match call
    case ControlCall(_) => true
    case BodyCall(_, _) => true
    case _ => Named(call.fields)
  }

  predicate AllNamed(calls: seq<Call>) {
    forall i :: 0 <= i < |calls| ==> CallNamed(calls[i])
  }

  /** An encoder that has written the trailers is at the end; its decoder then expects padding. */
  function DecoderSection(sec: Section): Section {
    if sec.End? then Padding else sec
  }

  ghost predicate AcceptsAll(h: Handler) {
    forall t :: h(t)
  }

  // ---------------------------------------------------------------------------------------------
  // One unit at a time

  lemma {:induction false} DeliverAccepted(h: Handler, trace: seq<Event>, events: seq<Event>)
    requires AcceptsAll(h)
    ensures Deliver(h, trace, events) == (trace + events, true)
    decreases |events|
  {
    if events != [] {
      DeliverAccepted(h, trace + [events[0]], events[1..]);
      assert trace + events == trace + [events[0]] + events[1..];
    } else {
      assert trace + events == trace;
    }
  }

  /** A unit in front of the bytes of a run is delivered first. */
  lemma RunStep(h: Handler, last: bool, sec: Section, entered: bool, s: seq<byte>, trace: seq<Event>)
    requires AcceptsAll(h) && s != [] && NextUnit(sec, s).Unit?
    ensures var u := NextUnit(sec, s);
            Run(h, last, sec, entered, s, trace) == Run(h, last, u.next, u.next != sec, u.rest, trace + u.events)
  {
    hide NextUnit, Deliver;
    DeliverAccepted(h, trace, NextUnit(sec, s).events);
  }

  lemma FieldUnit(sec: Section, f: Field, t: seq<byte>)
    requires IsFieldSection(sec) && FieldFits(f) && f.name != []
    ensures NextUnit(sec, FieldBytes(f) + t) == Unit([FieldEvent(sec, LowerField(f))], sec, t)
  {
    hide VarInt62.Read, VarInt62.ReadString, VarInt62.Encode;
    var name, value := Lower(f.name), VarInt62.EncodeString(f.value);
    assert FieldBytes(f) + t == VarInt62.Encode(|name|) + (name + (value + t));
    VarInt62.ReadEncode(|name|, name + (value + t));
    assert (name + (value + t))[..|name|] == name && (name + (value + t))[|name|..] == value + t;
    VarInt62.ReadStringEncode(f.value, t);
  }

  lemma ChunkUnit(c: seq<byte>, t: seq<byte>)
    requires c != [] && |c| < VarInt62.LIMIT
    ensures NextUnit(Body, VarInt62.EncodeString(c) + t) == Unit([OnBodyChunk(c)], Body, t)
  {
    hide VarInt62.Read, VarInt62.Encode;
    assert VarInt62.EncodeString(c) + t == VarInt62.Encode(|c|) + (c + t);
    VarInt62.ReadEncode(|c|, c + t);
    assert (c + t)[..|c|] == c && (c + t)[|c|..] == t;
  }

  lemma TerminatorUnit(sec: Section, t: seq<byte>)
    requires IsTerminated(sec)
    ensures NextUnit(sec, VarInt62.Encode(0) + t) == Unit([DoneEvent(sec)], After(sec), t)
  {
    hide VarInt62.Read, VarInt62.Encode;
    VarInt62.ReadEncode(0, t);
  }

  lemma ControlDataUnit(c: ControlData, t: seq<byte>)
    requires ControlFits(c)
    ensures NextUnit(Control, ControlBytes(c) + t) == Unit([OnControlData(c)], Header, t)
  {
    hide VarInt62.Read, VarInt62.Encode, ReadControlData, TwoBytes;
    var s := TwoBytes(c.verb, c.scheme) + TwoBytes(c.authority, c.path) + t;
    assert ControlBytes(c) + t == VarInt62.Encode(REQUEST_FRAMING) + s;
    VarInt62.ReadEncode(REQUEST_FRAMING, s);
    ReadControlBytes(c, t);
  }

  // ---------------------------------------------------------------------------------------------
  // One section at a time

  lemma {:induction false} FieldsRun(h: Handler, last: bool, sec: Section, entered: bool, fields: seq<Field>,
                                     t: seq<byte>, trace: seq<Event>)
    requires AcceptsAll(h) && IsFieldSection(sec) && FieldsFit(fields) && Named(fields)
    ensures Run(h, last, sec, entered, SectionBytes(fields) + t, trace) ==
            Run(h, last, After(sec), true, t, trace + (FieldEvents(sec, fields) + [DoneEvent(sec)]))
    decreases |fields|
  {
    hide Run, NextUnit, FieldBytes;
    TerminatorUnit(sec, t);
    if fields == [] {
      assert SectionBytes(fields) + t == VarInt62.Encode(0) + t;
      RunStep(h, last, sec, entered, VarInt62.Encode(0) + t, trace);
      assert FieldEvents(sec, fields) + [DoneEvent(sec)] == [DoneEvent(sec)];
    } else {
      var f, others := fields[0], fields[1..];
      var s := SectionBytes(others) + t;
      assert SectionBytes(fields) + t == FieldBytes(f) + s;
      FieldUnit(sec, f, s);
      RunStep(h, last, sec, entered, FieldBytes(f) + s, trace);
      var e := FieldEvent(sec, LowerField(f));
      FieldsRun(h, last, sec, false, others, t, trace + [e]);
      assert FieldEvents(sec, fields) == [e] + FieldEvents(sec, others);
      assert trace + [e] + (FieldEvents(sec, others) + [DoneEvent(sec)])
          == trace + (FieldEvents(sec, fields) + [DoneEvent(sec)]);
    }
  }

  /** Whether a section was just entered when its first entry arrives makes no difference later. */
  lemma {:induction false} ChunksRun(h: Handler, last: bool, entered: bool, chunks: seq<seq<byte>>, t: seq<byte>,
                                     trace: seq<Event>)
    requires AcceptsAll(h) && ChunksFit(chunks)
    ensures Run(h, last, Body, entered, ChunksBytes(chunks) + t, trace) ==
            Run(h, last, Body, entered && ChunkEvents(chunks) == [], t, trace + ChunkEvents(chunks))
    decreases |chunks|
  {
    hide Run, NextUnit, VarInt62.EncodeString;
    if chunks == [] {
      assert ChunksBytes(chunks) + t == t;
      assert trace + [] == trace;
    } else {
      var c, others := chunks[0], chunks[1..];
      var s := ChunksBytes(others) + t;
      if c == [] {
        assert ChunksBytes(chunks) + t == s;
        assert ChunkEvents(chunks) == ChunkEvents(others);
        ChunksRun(h, last, entered, others, t, trace);
      } else {
        assert ChunksBytes(chunks) + t == VarInt62.EncodeString(c) + s;
        ChunkUnit(c, s);
        RunStep(h, last, Body, entered, VarInt62.EncodeString(c) + s, trace);
        ChunksRun(h, last, false, others, t, trace + [OnBodyChunk(c)]);
        assert trace + [OnBodyChunk(c)] + ChunkEvents(others) == trace + ChunkEvents(chunks);
      }
    }
  }

  lemma BodyRun(h: Handler, last: bool, entered: bool, chunks: seq<seq<byte>>, done: bool, t: seq<byte>,
                trace: seq<Event>)
    requires AcceptsAll(h) && ChunksFit(chunks) && BodyBytes(chunks, done) != []
    ensures Run(h, last, Body, entered, BodyBytes(chunks, done) + t, trace) ==
            if done then Run(h, last, Trailer, true, t, trace + (ChunkEvents(chunks) + [OnBodyChunksDone]))
            else Run(h, last, Body, false, t, trace + (ChunkEvents(chunks) + []))
  {
    hide Run, NextUnit, ChunksBytes, ChunksFit, VarInt62.Encode;
    if done {
      assert BodyBytes(chunks, done) + t == ChunksBytes(chunks) + (VarInt62.Encode(0) + t);
      ChunksRun(h, last, entered, chunks, VarInt62.Encode(0) + t, trace);
      TerminatorUnit(Body, t);
      var e := entered && ChunkEvents(chunks) == [];
      RunStep(h, last, Body, e, VarInt62.Encode(0) + t, trace + ChunkEvents(chunks));
      assert trace + ChunkEvents(chunks) + [OnBodyChunksDone] == trace + (ChunkEvents(chunks) + [OnBodyChunksDone]);
    } else {
      assert BodyBytes(chunks, done) == ChunksBytes(chunks);
      ChunksRun(h, last, entered, chunks, t, trace);
      assert ChunkEvents(chunks) + [] == ChunkEvents(chunks);
      SomethingWritten(chunks);
    }
  }

  lemma SomethingWritten(chunks: seq<seq<byte>>)
    requires ChunksFit(chunks)
    ensures ChunksBytes(chunks) == [] <==> ChunkEvents(chunks) == []
  {
  }

  lemma ResponsePrefixRun(h: Handler, last: bool, sec: Section, entered: bool, code: nat, s: seq<byte>,
                          trace: seq<Event>)
    requires AcceptsAll(h) && (sec.Framing? || sec.StatusCode?) && 100 <= code <= 599
    ensures Run(h, last, sec, entered, ResponsePrefix(sec, code) + s, trace) ==
            if code <= 199 then Run(h, last, InformationalHeader, true, s, trace + [OnInformationalStatusCode(code)])
            else Run(h, last, FinalHeader, true, s, trace + [OnInformationalSectionDone, OnFinalStatusCode(code)])
  {
    hide Run, VarInt62.Read, VarInt62.Encode;
    var s1 := VarInt62.Encode(code) + s;
    VarInt62.ReadEncode(code, s);
    if sec.Framing? {
      assert ResponsePrefix(sec, code) + s == VarInt62.Encode(RESPONSE_FRAMING) + s1;
      VarInt62.ReadEncode(RESPONSE_FRAMING, s1);
      RunStep(h, last, sec, entered, VarInt62.Encode(RESPONSE_FRAMING) + s1, trace);
      assert trace + [] == trace;
      RunStep(h, last, StatusCode, true, s1, trace);
    } else {
      assert ResponsePrefix(sec, code) + s == s1;
      RunStep(h, last, sec, entered, s1, trace);
    }
  }

  // ---------------------------------------------------------------------------------------------
  // One call, and any run of calls

  /** In which sections a decoder can say that nothing of the section has been seen. */
  function EnteredAfter(call: Call): bool {
    !(call.BodyCall? && !call.done)
  }

  lemma CallRun(h: Handler, last: bool, sec: Section, entered: bool, call: Call, t: seq<byte>, trace: seq<Event>)
    requires AcceptsAll(h) && CallNamed(call) && Encode(sec, call).1.Encoded?
    ensures var (sec1, r) := Encode(sec, call);
            Run(h, last, sec, entered, r.data + t, trace) ==
            Run(h, last, DecoderSection(sec1), EnteredAfter(call), t, trace + CallEvents(call))
  {
    hide Run, NextUnit, SectionBytes, ControlBytes, BodyBytes, ResponsePrefix;
    match call
    case ControlCall(control) =>
      ControlDataUnit(control, t);
      RunStep(h, last, sec, entered, ControlBytes(control) + t, trace);
    case HeadersCall(fields) =>
      FieldsRun(h, last, sec, entered, fields, t, trace);
    case InformationalCall(code, fields) =>
      var p, s := ResponsePrefix(sec, code), SectionBytes(fields);
      assert p + s + t == p + (s + t);
      ResponsePrefixRun(h, last, sec, entered, code, s + t, trace);
      FieldsRun(h, last, InformationalHeader, true, fields, t, trace + [OnInformationalStatusCode(code)]);
      assert trace + CallEvents(call) ==
             trace + [OnInformationalStatusCode(code)]
             + (FieldEvents(InformationalHeader, fields) + [OnInformationalResponseDone]);
    case FinalHeadersCall(code, fields) =>
      var p, s := ResponsePrefix(sec, code), SectionBytes(fields);
      assert p + s + t == p + (s + t);
      ResponsePrefixRun(h, last, sec, entered, code, s + t, trace);
      var first := [OnInformationalSectionDone, OnFinalStatusCode(code)];
      FieldsRun(h, last, FinalHeader, true, fields, t, trace + first);
      assert trace + CallEvents(call) == trace + first + (FieldEvents(FinalHeader, fields) + [OnFinalHeadersDone]);
    case BodyCall(chunks, done) =>
      BodyRun(h, last, entered, chunks, done, t, trace);
    case TrailersCall(fields) =>
      FieldsRun(h, last, sec, entered, fields, t, trace);
  }

  lemma {:induction false} CallsRun(h: Handler, last: bool, sec: Section, entered: bool, calls: seq<Call>,
                                    t: seq<byte>, trace: seq<Event>)
    requires AcceptsAll(h) && AllNamed(calls) && EncodeAll(sec, calls).Some? && !sec.End?
    ensures var (sec', data) := EncodeAll(sec, calls).value;
            var e := if calls == [] then entered else EnteredAfter(calls[|calls| - 1]);
            Run(h, last, sec, entered, data + t, trace) ==
            Run(h, last, DecoderSection(sec'), e, t, trace + Events(calls))
    decreases |calls|
  {
    hide Run, Encode, CallEvents;
    if calls == [] {
      assert [] + t == t && trace + [] == trace;
    } else {
      var (sec1, r) := Encode(sec, calls[0]);
      var (sec2, data) := EncodeAll(sec1, calls[1..]).value;
      assert r.data + data + t == r.data + (data + t);
      CallRun(h, last, sec, entered, calls[0], data + t, trace);
      assert trace + Events(calls) == trace + CallEvents(calls[0]) + Events(calls[1..]);
      if calls[1..] == [] {
        assert [] + t == t;
        assert trace + CallEvents(calls[0]) + [] == trace + CallEvents(calls[0]);
      } else {
        AfterTheEnd(sec1, calls[1]);
        CallsRun(h, last, sec1, EnteredAfter(calls[0]), calls[1..], t, trace + CallEvents(calls[0]));
      }
    }
  }

  lemma AfterTheEnd(sec: Section, call: Call)
    ensures sec.End? ==> Encode(sec, call).1.Refused?
  {
  }

  // ---------------------------------------------------------------------------------------------
  // The message as a whole

  function Fresh(start: Section): State {
    State(start, [], [])
  }

  /** Streaming round trip: for every run of an encoder whose field names are not empty, the bytes
      written, cut in any way, are decoded without an error, leave nothing over, and cause exactly
      the callbacks asked for, each once and in order. */
  lemma StreamRoundTrip(h: Handler, start: Section, calls: seq<Call>, pieces: seq<seq<byte>>)
    requires AcceptsAll(h) && (start.Control? || start.Framing?)
    requires EncodeAll(start, calls).Some? && AllNamed(calls)
    requires pieces != [] && Concat(pieces) == EncodeAll(start, calls).value.1
    ensures DecodeAll(h, Fresh(start), pieces) ==
            (State(DecoderSection(EncodeAll(start, calls).value.0), [], Events(calls)), true)
  {
    hide Run, EncodeAll, NextUnit;
    var (sec, data) := EncodeAll(start, calls).value;
    BinaryHttpSplit.DecodeAnyCutting(h, Fresh(start), pieces);
    CallsRun(h, false, start, true, calls, [], []);
    assert [] + data == data && data + [] == data && [] + Events(calls) == Events(calls);
    var e := if calls == [] then true else EnteredAfter(calls[|calls| - 1]);
    WaitsForMore(h, DecoderSection(sec), e, Events(calls));
  }

  lemma WaitsForMore(h: Handler, sec: Section, entered: bool, trace: seq<Event>)
    requires !sec.End?
    ensures Run(h, false, sec, entered, [], trace) == Outcome(trace, Waiting(sec, entered, []))
  {
    hide NextUnit;
    BinaryHttpSplit.NoUnitInNothing(sec);
  }

  /** A message may stop after its trailers, after its body, or before the first body call. */
  predicate MayEnd(start: Section, calls: seq<Call>)
    requires EncodeAll(start, calls).Some?
  {
    var sec := EncodeAll(start, calls).value.0;
    calls != [] && (sec.End? || sec.Trailer? || (sec.Body? && !calls[|calls| - 1].BodyCall?))
  }

  /** The callbacks owed when a message stops in `sec`. */
  function EndEvents(sec: Section): seq<Event> {
    if sec.Body? || sec.Trailer? then TruncationEvents(sec) else []
  }

  lemma WhereCallsLead(sec: Section, calls: seq<Call>)
    requires calls != [] && EncodeAll(sec, calls).Some?
    ensures var last := calls[|calls| - 1];
            var sec' := EncodeAll(sec, calls).value.0;
            && !sec'.Padding? && (sec'.Body? ==> EnteredAfter(last) == !last.BodyCall?)
            && (sec'.Trailer? ==> EnteredAfter(last))
    decreases |calls|
  {
    hide SectionBytes, ControlBytes, BodyBytes, ResponsePrefix, FieldsFit, ChunksFit, ControlFits;
    var (sec1, r) := Encode(sec, calls[0]);
    if |calls| > 1 {
      WhereCallsLead(sec1, calls[1..]);
    } else {
      assert calls[1..] == [];
    }
  }

  /** Handed over in one last call, what an encoder wrote is accepted if and only if the message may
      end there; the sections it leaves off are reported as done. */
  lemma WholeMessage(h: Handler, start: Section, calls: seq<Call>)
    requires AcceptsAll(h) && (start.Control? || start.Framing?)
    requires EncodeAll(start, calls).Some? && AllNamed(calls)
    ensures var (sec, data) := EncodeAll(start, calls).value;
            var (st, status) := Decode(h, Fresh(start), data, true);
            && (status.Ok? <==> MayEnd(start, calls))
            && (status.Ok? ==> st == State(End, [], Events(calls) + EndEvents(sec)))
  {
    hide Run, NextUnit;
    var (sec, data) := EncodeAll(start, calls).value;
    CallsRun(h, true, start, true, calls, [], []);
    assert [] + data == data && data + [] == data && [] + Events(calls) == Events(calls);
    if calls == [] {
      EndsIn(h, start, true, Events(calls));
    } else {
      WhereCallsLead(start, calls);
      EndsIn(h, DecoderSection(sec), EnteredAfter(calls[|calls| - 1]), Events(calls));
    }
  }

  lemma EndsIn(h: Handler, sec: Section, entered: bool, trace: seq<Event>)
    requires AcceptsAll(h) && !sec.End?
    ensures Run(h, true, sec, entered, [], trace) ==
            if entered && (sec.Body? || sec.Trailer?) then Outcome(trace + TruncationEvents(sec), Truncated)
            else Outcome(trace, Waiting(sec, entered, []))
  {
    hide NextUnit, Deliver;
    BinaryHttpSplit.NoUnitInNothing(sec);
    DeliverAccepted(h, trace, TruncationEvents(sec));
  }

  /** The same for any cutting of the message whose last piece is marked as the last. */
  lemma WholeMessageInPieces(h: Handler, start: Section, calls: seq<Call>, pieces: seq<seq<byte>>, final: seq<byte>)
    requires AcceptsAll(h) && (start.Control? || start.Framing?)
    requires EncodeAll(start, calls).Some? && AllNamed(calls) && MayEnd(start, calls)
    requires Concat(pieces) + final == EncodeAll(start, calls).value.1
    ensures Decode(h, DecodeAll(h, Fresh(start), pieces).0, final, true) ==
            (State(End, [], Events(calls) + EndEvents(EncodeAll(start, calls).value.0)), Ok)
  {
    hide Decode, EncodeAll;
    WholeMessage(h, start, calls);
    if pieces == [] {
      assert Concat(pieces) + final == final;
    } else {
      BinaryHttpSplit.DecodeAnyCutting(h, Fresh(start), pieces);
      BinaryHttpSplit.DecodeSplitAtEnd(h, Fresh(start), Concat(pieces), final);
      DecodeOkStays(h, Fresh(start), Concat(pieces), final);
    }
  }

  lemma DecodeOkStays(h: Handler, st: State, a: seq<byte>, b: seq<byte>)
    requires !st.section.End? && Decode(h, st, a + b, true).1.Ok?
    ensures Decode(h, st, a, false).1.Ok?
  {
    hide Run;
    BinaryHttpSplit.DecodeSplitAtEnd(h, st, a, b);
  }

  predicate EndsWithOpenBody(calls: seq<Call>) {
    calls != [] && calls[|calls| - 1].BodyCall? && !calls[|calls| - 1].done
  }

  lemma {:induction false} OpenBody(sec: Section, calls: seq<Call>)
    requires EncodeAll(sec, calls).Some? && EndsWithOpenBody(calls)
    ensures EncodeAll(sec, calls).value.0.Body?
    decreases |calls|
  {
    var sec1 := Encode(sec, calls[0]).0;
    if |calls| > 1 {
      hide Encode;
      OpenBody(sec1, calls[1..]);
    } else {
      assert calls[1..] == [];
    }
  }

  lemma OpenBodyInOneCall(h: Handler, start: Section, calls: seq<Call>)
    requires AcceptsAll(h) && (start.Control? || start.Framing?)
    requires EncodeAll(start, calls).Some? && AllNamed(calls) && EndsWithOpenBody(calls)
    ensures Decode(h, Fresh(start), EncodeAll(start, calls).value.1, true).1.InvalidArgument?
  {
    hide Run, NextUnit, EncodeAll, Events;
    OpenBody(start, calls);
    var data := EncodeAll(start, calls).value.1;
    assert [] + data == data && data + [] == data;
    CallsRun(h, true, start, true, calls, [], []);
    EndsIn(h, Body, false, [] + Events(calls));
  }

  lemma EndAfterBody(h: Handler, trace: seq<Event>)
    requires AcceptsAll(h)
    ensures Decode(h, State(Body, [], trace), [], true).1.Ok?
  {
    hide Run;
    var none: seq<byte> := [];
    assert none + none == none;
    EndsIn(h, Body, true, trace);
  }

  /** A body without its terminator is accepted if the end of the message is announced in a call of
      its own, and refused if it is announced together with the last bytes. */
  lemma OpenBodyIsAcceptedLater(h: Handler, start: Section, calls: seq<Call>)
    requires AcceptsAll(h) && (start.Control? || start.Framing?)
    requires EncodeAll(start, calls).Some? && AllNamed(calls) && EndsWithOpenBody(calls)
    ensures var data := EncodeAll(start, calls).value.1;
            var (st, status) := Decode(h, Fresh(start), data, false);
            && status.Ok? && Decode(h, st, [], true).1.Ok?
            && Decode(h, Fresh(start), data, true).1.InvalidArgument?
            && BinaryHttpSplit.CutBetweenEntries(Fresh(start), st, [])
  {
    hide Decode, EncodeAll, Events, BinaryHttpSplit.CutBetweenEntries;
    OpenBody(start, calls);
    var data := EncodeAll(start, calls).value.1;
    assert Concat([data]) == data + [] == data;
    StreamRoundTrip(h, start, calls, [data]);
    BinaryHttpSplit.DecodeAnyCutting(h, Fresh(start), [data]);
    EndAfterBody(h, Events(calls));
    OpenBodyInOneCall(h, start, calls);
    BinaryHttpSplit.DecodeSplitAtEnd(h, Fresh(start), data, []);
    assert data + [] == data;
  }

  // ---------------------------------------------------------------------------------------------
  // An empty field name reads as the end of the section

  lemma {:induction false} DeliverExtends(h: Handler, trace: seq<Event>, events: seq<Event>)
    ensures trace <= Deliver(h, trace, events).0
    decreases |events|
  {
    if events != [] {
      DeliverExtends(h, trace + [events[0]], events[1..]);
    }
  }

  lemma {:induction false} RunExtends(h: Handler, last: bool, sec: Section, entered: bool, s: seq<byte>,
                                      trace: seq<Event>)
    ensures trace <= Run(h, last, sec, entered, s, trace).trace
    decreases |s|
  {
    hide NextUnit, Deliver;
    if TruncationPoint(last, sec, entered, s) {
      DeliverExtends(h, trace, TruncationEvents(sec));
    } else {
      var u := NextUnit(sec, s);
      if u.Unit? {
        DeliverExtends(h, trace, u.events);
        var (t, ok) := Deliver(h, trace, u.events);
        if ok {
          RunExtends(h, last, u.next, u.next != sec, u.rest, t);
        }
      }
    }
  }

  lemma {:induction false} UnnamedFields(h: Handler, last: bool, sec: Section, entered: bool, fields: seq<Field>,
                                         t: seq<byte>, trace: seq<Event>)
    requires AcceptsAll(h) && IsFieldSection(sec) && FieldsFit(fields) && !Named(fields)
    ensures !(trace + FieldEvents(sec, fields) <= Run(h, last, sec, entered, SectionBytes(fields) + t, trace).trace)
    decreases |fields|
  {
    hide Run, NextUnit, VarInt62.Encode;
    var f, others := fields[0], fields[1..];
    var s := SectionBytes(others) + t;
    assert SectionBytes(fields) + t == FieldBytes(f) + s;
    var e := FieldEvent(sec, LowerField(f));
    assert FieldEvents(sec, fields) == [e] + FieldEvents(sec, others);
    if f.name == [] {
      var v := VarInt62.EncodeString(f.value) + s;
      assert VarInt62.EncodeString(Lower(f.name)) == VarInt62.Encode(0);
      assert FieldBytes(f) + s == VarInt62.Encode(0) + v;
      TerminatorUnit(sec, v);
      RunStep(h, last, sec, entered, VarInt62.Encode(0) + v, trace);
      RunExtends(h, last, After(sec), true, v, trace + [DoneEvent(sec)]);
      var done := Run(h, last, After(sec), true, v, trace + [DoneEvent(sec)]).trace;
      assert done[|trace|] == DoneEvent(sec) != e == (trace + FieldEvents(sec, fields))[|trace|];
    } else {
      FieldUnit(sec, f, s);
      RunStep(h, last, sec, entered, FieldBytes(f) + s, trace);
      assert !Named(others) by {
        var i :| 0 <= i < |fields| && fields[i].name == [];
        assert others[i - 1].name == [];
      }
      UnnamedFields(h, last, sec, false, others, t, trace + [e]);
      assert trace + [e] + FieldEvents(sec, others) == trace + FieldEvents(sec, fields);
    }
  }

  lemma PrefixOfLonger<T>(a: seq<T>, b: seq<T>, c: seq<T>)
    ensures a + b <= c ==> a <= c
  {
    if a + b <= c {
      assert c[..|a|] == (a + b)[..|a|] == a;
    }
  }

  /** The fields are not reported even if the end of their section is left out of account. */
  lemma UnnamedSection(h: Handler, sec: Section, entered: bool, fields: seq<Field>, t: seq<byte>, trace: seq<Event>)
    requires AcceptsAll(h) && IsFieldSection(sec) && FieldsFit(fields) && !Named(fields)
    ensures !(trace + (FieldEvents(sec, fields) + [DoneEvent(sec)])
              <= Run(h, false, sec, entered, SectionBytes(fields) + t, trace).trace)
  {
    hide Run, SectionBytes, FieldEvents, Named, FieldsFit;
    var o := Run(h, false, sec, entered, SectionBytes(fields) + t, trace);
    UnnamedFields(h, false, sec, entered, fields, t, trace);
    PrefixOfLonger(trace + FieldEvents(sec, fields), [DoneEvent(sec)], o.trace);
    assert trace + FieldEvents(sec, fields) + [DoneEvent(sec)] == trace + (FieldEvents(sec, fields) + [DoneEvent(sec)]);
  }

  lemma UnnamedResponse(h: Handler, sec: Section, entered: bool, code: nat, fields: seq<Field>, t: seq<byte>,
                        trace: seq<Event>)
    requires AcceptsAll(h) && (sec.Framing? || sec.StatusCode?) && 100 <= code <= 599
    requires FieldsFit(fields) && !Named(fields)
    ensures var call := if code <= 199 then InformationalCall(code, fields) else FinalHeadersCall(code, fields);
            !(trace + CallEvents(call)
              <= Run(h, false, sec, entered, ResponsePrefix(sec, code) + SectionBytes(fields) + t, trace).trace)
  {
    hide Run, SectionBytes, ResponsePrefix, FieldEvents, Named, FieldsFit;
    var p, s := ResponsePrefix(sec, code), SectionBytes(fields);
    var next := if code <= 199 then InformationalHeader else FinalHeader;
    var first := if code <= 199 then [OnInformationalStatusCode(code)]
                 else [OnInformationalSectionDone, OnFinalStatusCode(code)];
    assert p + s + t == p + (s + t);
    ResponsePrefixRun(h, false, sec, entered, code, s + t, trace);
    UnnamedSection(h, next, true, fields, t, trace + first);
    var events := FieldEvents(next, fields) + [DoneEvent(next)];
    assert trace + first + events == trace + (first + events);
  }

  lemma UnnamedCall(h: Handler, sec: Section, entered: bool, call: Call, t: seq<byte>, trace: seq<Event>)
    requires AcceptsAll(h) && !CallNamed(call) && Encode(sec, call).1.Encoded?
    ensures !(trace + CallEvents(call) <= Run(h, false, sec, entered, Encode(sec, call).1.data + t, trace).trace)
  {
    hide Run, SectionBytes, ResponsePrefix, FieldEvents, Named, FieldsFit;
    if call.HeadersCall? || call.TrailersCall? {
      UnnamedSection(h, sec, entered, call.fields, t, trace);
    } else {
      UnnamedResponse(h, sec, entered, call.code, call.fields, t, trace);
    }
  }

  lemma {:induction false} UnnamedCalls(h: Handler, sec: Section, entered: bool, calls: seq<Call>, trace: seq<Event>)
    requires AcceptsAll(h) && !AllNamed(calls) && EncodeAll(sec, calls).Some?
    ensures !(trace + Events(calls) <= Run(h, false, sec, entered, EncodeAll(sec, calls).value.1, trace).trace)
    decreases |calls|
  {
    hide Run, Encode, CallEvents, CallNamed;
    var (sec1, r) := Encode(sec, calls[0]);
    var (sec2, data) := EncodeAll(sec1, calls[1..]).value;
    if CallNamed(calls[0]) {
      CallRun(h, false, sec, entered, calls[0], data, trace);
      assert !AllNamed(calls[1..]) by {
        var i :| 0 <= i < |calls| && !CallNamed(calls[i]);
        assert calls[1..][i - 1] == calls[i];
      }
      AfterTheEnd(sec1, calls[1]);
      UnnamedCalls(h, sec1, EnteredAfter(calls[0]), calls[1..], trace + CallEvents(calls[0]));
      assert trace + CallEvents(calls[0]) + Events(calls[1..]) == trace + Events(calls);
    } else {
      UnnamedCall(h, sec, entered, calls[0], data, trace);
      var o := Run(h, false, sec, entered, r.data + data, trace);
      PrefixOfLonger(trace + CallEvents(calls[0]), Events(calls[1..]), o.trace);
      assert trace + CallEvents(calls[0]) + Events(calls[1..]) == trace + Events(calls);
    }
  }

  /** The callbacks of the decoder are those the encoder was asked for if and only if every field has
      a name: an empty name encodes as the terminator of its section. */
  lemma RoundTripNeedsNames(h: Handler, start: Section, calls: seq<Call>)
    requires AcceptsAll(h) && (start.Control? || start.Framing?) && EncodeAll(start, calls).Some?
    ensures Decode(h, Fresh(start), EncodeAll(start, calls).value.1, false).0.trace == Events(calls)
            <==> AllNamed(calls)
  {
    hide Run, EncodeAll;
    var data := EncodeAll(start, calls).value.1;
    assert [] + data == data && [] + Events(calls) == Events(calls);
    if AllNamed(calls) {
      StreamRoundTrip(h, start, calls, [data]);
      assert Concat([data]) == data + [] == data;
      BinaryHttpSplit.DecodeAnyCutting(h, Fresh(start), [data]);
    } else {
      UnnamedCalls(h, start, true, calls, []);
    }
  }

  lemma NamelessSection()
    ensures var z := VarInt62.Encode(0);
            FieldsFit([Field([], [])]) && SectionBytes([Field([], [])]) == z + (z + (z + []))
  {
    hide VarInt62.Encode;
    var f := Field([], []);
    assert [f][1..] == [] && Lower([]) == [];
    assert FieldsBytes([f]) == FieldBytes(f) + FieldsBytes([]);
  }

  /** Three terminators end the headers, the body and the trailers. */
  lemma ThreeTerminators(h: Handler, trace: seq<Event>)
    requires AcceptsAll(h)
    ensures var z := VarInt62.Encode(0);
            Run(h, false, Header, true, z + (z + (z + [])), trace)
            == Outcome(trace + [OnHeadersDone, OnBodyChunksDone, OnTrailersDone], Waiting(Padding, true, []))
  {
    hide VarInt62.Encode, Run, NextUnit;
    var z := VarInt62.Encode(0);
    var t1 := trace + [OnHeadersDone];
    var t2 := t1 + [OnBodyChunksDone];
    var t3 := t2 + [OnTrailersDone];
    TerminatorUnit(Header, z + (z + []));
    RunStep(h, false, Header, true, z + (z + (z + [])), trace);
    TerminatorUnit(Body, z + []);
    RunStep(h, false, Body, true, z + (z + []), t1);
    TerminatorUnit(Trailer, []);
    RunStep(h, false, Trailer, true, z + [], t2);
    WaitsForMore(h, Padding, true, t3);
    assert t3 == trace + [OnHeadersDone, OnBodyChunksDone, OnTrailersDone];
  }

  lemma TwoCalls(control: ControlData, fields: seq<Field>)
    requires ControlFits(control) && FieldsFit(fields)
    ensures EncodeAll(Control, [ControlCall(control), HeadersCall(fields)])
         == Some((Body, ControlBytes(control) + SectionBytes(fields)))
  {
    hide ControlBytes, SectionBytes, FieldsFit, ControlFits;
    var calls := [ControlCall(control), HeadersCall(fields)];
    assert calls[1..] == [HeadersCall(fields)] && calls[1..][1..] == [];
    assert EncodeAll(Header, calls[1..]) == Some((Body, SectionBytes(fields) + []));
    assert SectionBytes(fields) + [] == SectionBytes(fields);
  }

  /** Such a run: a nameless field ends the headers, and what is left of it the body and the trailers. */
  lemma EmptyNameEndsTheMessage(h: Handler, control: ControlData)
    requires AcceptsAll(h) && ControlFits(control)
    ensures var calls := [ControlCall(control), HeadersCall([Field([], [])])];
            && EncodeAll(Control, calls).Some? && !AllNamed(calls)
            && Decode(h, Fresh(Control), EncodeAll(Control, calls).value.1, false)
               == (State(Padding, [], [OnControlData(control), OnHeadersDone, OnBodyChunksDone, OnTrailersDone]), Ok)
  {
    var fields := [Field([], [])];
    var calls := [ControlCall(control), HeadersCall(fields)];
    assert fields[0].name == [] && !CallNamed(calls[1]);
    NamelessSection();
    TwoCalls(control, fields);
    NamelessRun(h, control, SectionBytes(fields));
    hide ControlBytes, SectionBytes, Run, EncodeAll, AllNamed, ControlFits, FieldsFit;
    var data := ControlBytes(control) + SectionBytes(fields);
    assert [] + data == data;
  }

  lemma NamelessRun(h: Handler, control: ControlData, s: seq<byte>)
    requires AcceptsAll(h) && ControlFits(control) && var z := VarInt62.Encode(0); s == z + (z + (z + []))
    ensures Run(h, false, Control, true, ControlBytes(control) + s, [])
         == Outcome([OnControlData(control), OnHeadersDone, OnBodyChunksDone, OnTrailersDone],
                    Waiting(Padding, true, []))
  {
    hide VarInt62.Encode, ControlBytes, Run, ControlFits;
    CallRun(h, false, Control, true, ControlCall(control), s, []);
    var trace := [] + [OnControlData(control)];
    ThreeTerminators(h, trace);
    assert trace + [OnHeadersDone, OnBodyChunksDone, OnTrailersDone]
        == [OnControlData(control), OnHeadersDone, OnBodyChunksDone, OnTrailersDone];
  }
}
