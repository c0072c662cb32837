/** Runs of an encoder in which some calls are refused: what the calls that were not refused have
    written, and when a decoder still makes sense of it. */
module BinaryHttpRefusals {
  import opened Bytes
  import VarInt62
  import opened BinaryHttpStream
  import opened BinaryHttpEncoder
  import opened BinaryHttpRoundTrip
  import BinaryHttpSplit
  import opened Sequences

  /** Everything written by a sequence of calls, refused or not, and those that were not refused. */
  function Write(sec: Section, calls: seq<Call>): (r: (seq<byte>, seq<Call>))
    ensures |r.1| <= |calls|
    decreases |calls|
  {
    if calls == [] then ([], [])
    else
      var (sec1, r1) := Encode(sec, calls[0]);
      var (data, done) := Write(sec1, calls[1..]);
      if r1.Refused? then (data, done) else (r1.data + data, [calls[0]] + done)
  }

  /** An informational response that is refused only for the length of a field. */
  predicate TooLong(call: Call) {
    call.InformationalCall? && 100 <= call.code <= 199 && !FieldsFit(call.fields)
  }

  /** A refused call ends the encoding if and only if it is not such a response where one may come. */
  lemma RefusalEnds(sec: Section, call: Call)
    requires Encode(sec, call).1.Refused?
    ensures !Encode(sec, call).0.End? <==> TooLong(call) && (sec.Framing? || sec.StatusCode?)
    ensures TooLong(call) && (sec.Framing? || sec.StatusCode?) ==> Encode(sec, call).0.StatusCode?
  {
    hide ControlBytes, SectionBytes, BodyBytes, ResponsePrefix;
  }

  lemma EndStays(call: Call)
    ensures Encode(End, call).0.End? && Encode(End, call).1.Refused?
  {
  }

  lemma {:induction false} NothingAfterTheEnd(calls: seq<Call>)
    ensures Write(End, calls) == ([], [])
    decreases |calls|
  {
    hide Encode;
    if calls != [] {
      EndStays(calls[0]);
      NothingAfterTheEnd(calls[1..]);
    }
  }

  /** The framing indicator was due when the first call was refused, and is not written any more. */
  predicate FramingLost(start: Section, calls: seq<Call>) {
    start.Framing? && calls != [] && TooLong(calls[0])
  }

  /** Otherwise, what is written is what the calls that were not refused write by themselves. */
  lemma {:induction false} RefusedAreSkipped(sec: Section, calls: seq<Call>)
    requires !FramingLost(sec, calls)
    ensures var (data, done) := Write(sec, calls);
            EncodeAll(sec, done).Some? && EncodeAll(sec, done).value.1 == data
    decreases |calls|
  {
    if calls != [] {
      var (sec1, r1) := Encode(sec, calls[0]);
      if r1.Refused? {
        RefusalEnds(sec, calls[0]);
        hide Encode;
        if sec1.End? {
          NothingAfterTheEnd(calls[1..]);
        } else {
          RefusedAreSkipped(sec1, calls[1..]);
        }
      } else {
        NotBackToFraming(sec, calls[0]);
        hide Encode;
        RefusedAreSkipped(sec1, calls[1..]);
        var done := Write(sec1, calls[1..]).1;
        assert ([calls[0]] + done)[1..] == done;
      }
    }
  }

  lemma NotBackToFraming(sec: Section, call: Call)
    ensures !Encode(sec, call).0.Framing?
  {
    hide ControlBytes, SectionBytes, BodyBytes, ResponsePrefix, FieldsFit, ChunksFit, ControlFits;
  }

  lemma ResponseCall(call: Call) returns (code: nat, t: seq<byte>)
    requires Encode(StatusCode, call).1.Encoded?
    ensures 100 <= code <= 599 && Encode(StatusCode, call).1.data == VarInt62.Encode(code) + t
  {
    code, t := call.code, SectionBytes(call.fields);
    assert ResponsePrefix(StatusCode, code) == VarInt62.Encode(code);
  }

  /** Whatever is written without the indicator starts with a status code. */
  lemma {:induction false} StartsWithStatusCode(calls: seq<Call>) returns (code: nat, t: seq<byte>)
    requires Write(StatusCode, calls).0 != []
    ensures 100 <= code <= 599 && Write(StatusCode, calls).0 == VarInt62.Encode(code) + t
    decreases |calls|
  {
    hide Encode, VarInt62.Encode;
    var (sec1, r1) := Encode(StatusCode, calls[0]);
    var rest := Write(sec1, calls[1..]).0;
    if r1.Refused? {
      RefusalEnds(StatusCode, calls[0]);
      if sec1.End? {
        NothingAfterTheEnd(calls[1..]);
      }
      code, t := StartsWithStatusCode(calls[1..]);
    } else {
      code, t := ResponseCall(calls[0]);
      t := t + rest;
      assert r1.data + rest == VarInt62.Encode(code) + t;
    }
  }

  /** Without the indicator nothing is reported at all. */
  lemma LostFramingIsMalformed(h: Handler, calls: seq<Call>)
    requires FramingLost(Framing, calls) && Write(Framing, calls).0 != []
    ensures Decode(h, Fresh(Framing), Write(Framing, calls).0, false) == (State(End, [], []), InvalidArgument)
  {
    hide Write, VarInt62.Encode, VarInt62.Read;
    RefusalEnds(Framing, calls[0]);
    var data := Write(Framing, calls).0;
    assert data == Write(StatusCode, calls[1..]).0 by {
      OneStep(Framing, calls);
    }
    var code, t := StartsWithStatusCode(calls[1..]);
    VarInt62.ReadEncode(code, t);
    assert [] + data == data;
  }

  lemma OneStep(sec: Section, calls: seq<Call>)
    requires calls != [] && Encode(sec, calls[0]).1.Refused?
    ensures Write(sec, calls) == Write(Encode(sec, calls[0]).0, calls[1..])
  {
    hide Encode;
  }

  lemma CallsWrite(sec: Section, call: Call)
    requires Encode(sec, call).1.Encoded?
    ensures Encode(sec, call).1.data != []
  {
    hide FieldsBytes, TwoBytes;
  }

  lemma {:induction false} NothingWritten(sec: Section, calls: seq<Call>)
    requires Write(sec, calls).0 == []
    ensures Write(sec, calls).1 == [] && EncodeAll(sec, []) == Some((sec, []))
    decreases |calls|
  {
    hide Encode;
    if calls != [] {
      if Encode(sec, calls[0]).1.Encoded? {
        CallsWrite(sec, calls[0]);
      }
      NothingWritten(Encode(sec, calls[0]).0, calls[1..]);
    }
  }

  /** The output of every run, however it is cut, is decoded without an error into exactly the calls
      that were not refused, unless the framing indicator was lost and something was written still. */
  lemma RefusalsAreHarmless(h: Handler, start: Section, calls: seq<Call>, pieces: seq<seq<byte>>)
    requires AcceptsAll(h) && (start.Control? || start.Framing?)
    requires AllNamed(Write(start, calls).1)
    requires pieces != [] && Concat(pieces) == Write(start, calls).0
    ensures var (st, ok) := DecodeAll(h, Fresh(start), pieces);
            ok && st.trace == Events(Write(start, calls).1)
            <==> !FramingLost(start, calls) || Write(start, calls).0 == []
  {
    hide Write, EncodeAll, Decode, Events, Encode;
    var (data, done) := Write(start, calls);
    if !FramingLost(start, calls) {
      RefusedAreSkipped(start, calls);
      StreamRoundTrip(h, start, done, pieces);
    } else {
      BinaryHttpSplit.DecodeAnyCutting(h, Fresh(start), pieces);
      if data != [] {
        LostFramingIsMalformed(h, calls);
      } else {
        NothingWritten(start, calls);
        StreamRoundTrip(h, start, [], pieces);
      }
    }
  }

  /** Such a run: a field too long for its informational response, and then the final response. */
  lemma LostFraming(h: Handler, name: seq<byte>)
    requires |name| >= VarInt62.LIMIT
    ensures var calls := [InformationalCall(103, [Field(name, [])]), FinalHeadersCall(200, [])];
            && FramingLost(Framing, calls) && Write(Framing, calls).1 == [FinalHeadersCall(200, [])]
            && Decode(h, Fresh(Framing), Write(Framing, calls).0, false) == (State(End, [], []), InvalidArgument)
  {
    var first, second := InformationalCall(103, [Field(name, [])]), FinalHeadersCall(200, []);
    var calls := [first, second];
    assert !FieldFits(first.fields[0]);
    assert calls[1..] == [second] && [second][1..] == [];
    assert Write(StatusCode, [second]).1 == [second];
    CallsWrite(StatusCode, second);
    OneStep(Framing, calls);
    LostFramingIsMalformed(h, calls);
  }
}
