/** Which runs of an encoder succeed, said of the calls alone. */
module BinaryHttpCalls {
  import opened Bytes
  import VarInt62
  import opened BinaryHttpStream
  import opened BinaryHttpEncoder
  import opened BinaryHttpRoundTrip

  // ---------------------------------------------------------------------------------------------
  // The calls

  /** Its length can be written in 62 bits. */
  predicate Short(s: seq<byte>) {
    |s| < 0x4000_0000_0000_0000
  }

  predicate ShortFields(fields: seq<Field>) {
    forall i :: 0 <= i < |fields| ==> Short(fields[i].name) && Short(fields[i].value)
  }

  /** What a call must be in itself: strings that are not too long, a status code of its kind, and a part of a body
      that has something in it or is the last. */
  predicate Sound(call: Call) {
    match call
    case ControlCall(c) => Short(c.verb) && Short(c.scheme) && Short(c.authority) && Short(c.path)
    case HeadersCall(fields) => ShortFields(fields)
    case InformationalCall(code, fields) => 100 <= code <= 199 && ShortFields(fields)
    case FinalHeadersCall(code, fields) => 200 <= code <= 599 && ShortFields(fields)
    case BodyCall(chunks, done) =>
      && (forall i :: 0 <= i < |chunks| ==> Short(chunks[i]))
      && (done || exists i :: 0 <= i < |chunks| && chunks[i] != [])
    case TrailersCall(fields) => ShortFields(fields)
  }

  /** Which call can be the first of a request or a response. */
  predicate CanBegin(start: Section, call: Call) {
    if start.Control? then call.ControlCall? else call.InformationalCall? || call.FinalHeadersCall?
  }

  /** Which call can come after which. */
  predicate CanFollow(call: Call, next: Call) {
    match call
    case ControlCall(_) => next.HeadersCall?
    case HeadersCall(_) => next.BodyCall?
    case InformationalCall(_, _) => next.InformationalCall? || next.FinalHeadersCall?
    case FinalHeadersCall(_, _) => next.BodyCall?
    case BodyCall(_, done) => if done then next.TrailersCall? else next.BodyCall?
    case TrailersCall(_) => false
  }

  /** Nothing is left to call. */
  predicate IsLast(call: Call) {
    call.TrailersCall?
  }

  predicate InOrder(calls: seq<Call>) {
    forall i :: 0 < i < |calls| ==> CanFollow(calls[i - 1], calls[i])
  }

  predicate AllSound(calls: seq<Call>) {
    forall i :: 0 <= i < |calls| ==> Sound(calls[i])
  }

  // ---------------------------------------------------------------------------------------------
  // One call

  /** The section after a call. */
  function SectionBehind(call: Call): Section {
    match call
    case ControlCall(_) => Header
    case HeadersCall(_) => Body
    case InformationalCall(_, _) => StatusCode
    case FinalHeadersCall(_, _) => Body
    case BodyCall(_, done) => if done then Trailer else Body
    case TrailersCall(_) => End
  }

  /** Which calls a section takes. */
  predicate Takes(sec: Section, call: Call) {
    match call
    case ControlCall(_) => sec.Control?
    case HeadersCall(_) => sec.Header?
    case InformationalCall(_, _) => sec.Framing? || sec.StatusCode?
    case FinalHeadersCall(_, _) => sec.Framing? || sec.StatusCode?
    case BodyCall(_, _) => sec.Body?
    case TrailersCall(_) => sec.Trailer?
  }

  lemma {:induction false} NothingToWrite(chunks: seq<seq<byte>>)
    requires ChunksFit(chunks)
    ensures ChunksBytes(chunks) == [] <==> forall i :: 0 <= i < |chunks| ==> chunks[i] == []
    decreases |chunks|
  {
    if chunks != [] {
      NothingToWrite(chunks[1..]);
      assert VarInt62.EncodeString(chunks[0]) != [];
      assert forall i :: 1 <= i < |chunks| ==> chunks[i] == chunks[1..][i - 1];
    }
  }

  lemma BodyIsWritten(chunks: seq<seq<byte>>, done: bool)
    requires ChunksFit(chunks)
    ensures BodyBytes(chunks, done) != [] <==> done || exists i :: 0 <= i < |chunks| && chunks[i] != []
  {
    hide ChunksBytes;
    NothingToWrite(chunks);
    assert VarInt62.Encode(0) != [];
  }

  lemma CallExactly(sec: Section, call: Call)
    ensures Encode(sec, call).1.Encoded? <==> Takes(sec, call) && Sound(call)
    ensures Encode(sec, call).1.Encoded? ==> Encode(sec, call).0 == SectionBehind(call)
    ensures Encode(sec, call).1 == Refused(Internal) <==> sec.Control? && call.ControlCall? && !Sound(call)
  {
    hide ControlBytes, SectionBytes, BodyBytes, ResponsePrefix;
    if call.BodyCall? && ChunksFit(call.chunks) {
      BodyIsWritten(call.chunks, call.done);
    }
  }

  // ---------------------------------------------------------------------------------------------
  // Whole runs

  lemma InOrderTail(calls: seq<Call>)
    requires |calls| > 1
    ensures InOrder(calls) <==> CanFollow(calls[0], calls[1]) && InOrder(calls[1..])
    ensures AllSound(calls) <==> Sound(calls[0]) && AllSound(calls[1..])
  {
    hide CanFollow, Sound;
    var t := calls[1..];
    if InOrder(calls) {
      forall i | 0 < i < |t| ensures CanFollow(t[i - 1], t[i]) {
        assert CanFollow(calls[i + 1 - 1], calls[i + 1]);
      }
      assert CanFollow(calls[1 - 1], calls[1]);
    }
    if CanFollow(calls[0], calls[1]) && InOrder(t) {
      forall i | 0 < i < |calls| ensures CanFollow(calls[i - 1], calls[i]) {
        assert i > 1 ==> CanFollow(t[i - 1 - 1], t[i - 1]);
      }
    }
    if AllSound(calls) {
      assert Sound(calls[0]);
      forall i | 0 <= i < |t| ensures Sound(t[i]) {
        assert Sound(calls[i + 1]);
      }
    }
  }

  lemma TakesBehind(call: Call, next: Call)
    ensures Takes(SectionBehind(call), next) <==> CanFollow(call, next)
  {
  }

  lemma {:induction false} RunExactly(sec: Section, calls: seq<Call>)
    requires calls != []
    ensures EncodeAll(sec, calls).Some? <==> Takes(sec, calls[0]) && InOrder(calls) && AllSound(calls)
    ensures EncodeAll(sec, calls).Some? ==> EncodeAll(sec, calls).value.0 == SectionBehind(calls[|calls| - 1])
    decreases |calls|
  {
    hide Encode, Takes, Sound, SectionBehind, CanFollow;
    CallExactly(sec, calls[0]);
    if |calls| == 1 {
      assert calls[1..] == [] && AllSound(calls) == Sound(calls[0]);
    } else {
      RunExactly(SectionBehind(calls[0]), calls[1..]);
      TakesBehind(calls[0], calls[1]);
      InOrderTail(calls);
    }
  }

  /** An encoder takes all the calls of a run if and only if each is sound in itself, the first can begin a message of
      its kind, and each can follow the one before it; and the message is complete exactly with its trailers. */
  lemma EncoderTakesExactly(start: Section, calls: seq<Call>)
    requires (start.Control? || start.Framing?) && calls != []
    ensures EncodeAll(start, calls).Some? <==> CanBegin(start, calls[0]) && InOrder(calls) && AllSound(calls)
    ensures EncodeAll(start, calls).Some? ==>
              (EncodeAll(start, calls).value.0.End? <==> IsLast(calls[|calls| - 1]))
  {
    hide EncodeAll, InOrder, AllSound;
    RunExactly(start, calls);
  }
}
