/** The resumable decoder for indeterminate-length responses, which loops over the sections. */
module BinaryHttpResponseDecoder {
  import opened Bytes
  import VarInt62
  import opened DataReader
  import opened BinaryHttpStream
  import opened BinaryHttpDecoder
  import BinaryHttpSplit

  class ResponseDecoder {
    const handler: MessageSectionHandler
    var buffer: seq<byte>
    var section: Section

    ghost predicate Valid()
      reads this
    {
      !section.Control? && !section.Header?
    }

    constructor (handler: MessageSectionHandler)
      ensures Valid() && this.handler == handler
      ensures Abstract() == State(Framing, [], handler.trace)
    {
      this.handler := handler;
      buffer := [];
      section := Framing;
    }

    /** The decoder as a value. */
    ghost function Abstract(): (st: State)
      reads this, handler
    {
      State(section, buffer, handler.trace)
    }

    /** One pass of the loop: either decoding is over, or the section has been left and everything up
        to the new checkpoint has been accounted for. */
    ghost predicate Progress(last: bool, o: Outcome, remaining0: seq<byte>, remaining: seq<byte>,
                             done: bool, status: Status, checkpoint: seq<byte>)
      reads this, handler
    {
      if done then Matches(last, o, handler.trace, section, status, checkpoint)
      else
        && !section.End? && |remaining| < |remaining0| && checkpoint == remaining
        && o == Run(handler.accepts, last, section, true, remaining, handler.trace)
    }

    method DecodeFraming(last: bool, reader: QuicheDataReader, checkpoint0: seq<byte>, ghost o: Outcome)
      returns (done: bool, status: Status, checkpoint: seq<byte>)
      requires section.Framing? && reader.Valid() && reader.Remaining() == checkpoint0
      requires o == Run(handler.accepts, last, section, true, checkpoint0, handler.trace)
      modifies `section, reader
      ensures Valid() && reader.Valid()
      ensures Progress(last, o, checkpoint0, reader.Remaining(), done, status, checkpoint)
    {
      hide VarInt62.Read;
      checkpoint := checkpoint0;
      var ok, framing := reader.ReadVarInt62();
      if !ok {
        return true, OutOfRange, checkpoint;
      } else if framing != RESPONSE_FRAMING {
        return true, InvalidArgument, checkpoint;
      }
      section := StatusCode;
      checkpoint := reader.PeekRemainingPayload();
      return false, Ok, checkpoint;
    }

    /** An informational status opens a field section, a final one closes the informational part. */
    method DecodeStatusCode(last: bool, reader: QuicheDataReader, checkpoint0: seq<byte>, ghost o: Outcome)
      returns (done: bool, status: Status, checkpoint: seq<byte>)
      requires section.StatusCode? && reader.Valid() && reader.Remaining() == checkpoint0
      requires o == Run(handler.accepts, last, section, true, checkpoint0, handler.trace)
      modifies `section, handler, reader
      ensures Valid() && reader.Valid()
      ensures Progress(last, o, checkpoint0, reader.Remaining(), done, status, checkpoint)
    {
      hide VarInt62.Read, Run;
      RunStatus(handler.accepts, last, checkpoint0, handler.trace);
      checkpoint := checkpoint0;
      var ok, code := reader.ReadVarInt62();
      if !ok {
        return true, OutOfRange, checkpoint;
      } else if code < 100 || code > 599 {
        return true, InvalidArgument, checkpoint;
      } else if code >= 100 && code <= 199 {
        var accepted := handler.On(OnInformationalStatusCode(code));
        if !accepted {
          return true, Internal, checkpoint;
        }
        section := InformationalHeader;
      } else {
        var accepted := handler.On(OnInformationalSectionDone);
        if !accepted {
          return true, Internal, checkpoint;
        }
        accepted := handler.On(OnFinalStatusCode(code));
        if !accepted {
          return true, Internal, checkpoint;
        }
        section := FinalHeader;
      }
      checkpoint := reader.PeekRemainingPayload();
      return false, Ok, checkpoint;
    }

    /** The fields of an informational or of the final response, or the trailers. */
    method DecodeFields(last: bool, reader: QuicheDataReader, checkpoint0: seq<byte>, ghost o: Outcome)
      returns (done: bool, status: Status, checkpoint: seq<byte>)
      requires section in {InformationalHeader, FinalHeader, Trailer}
      requires reader.Valid() && reader.Remaining() == checkpoint0
      requires o == Run(handler.accepts, last, section, true, checkpoint0, handler.trace)
      modifies `section, handler, reader
      ensures Valid() && reader.Valid()
      ensures Progress(last, o, checkpoint0, reader.Remaining(), done, status, checkpoint)
    {
      hide Run, RunSection, Deliver;
      ghost var h := handler.accepts;
      checkpoint := checkpoint0;
      if section.Trailer? {
        var empty := reader.IsDoneReading();
        if empty && last {
          RunTruncated(h, Trailer, handler.trace);
          var accepted := handler.On(OnTrailersDone);
          return true, if accepted then Ok else Internal, checkpoint;
        }
      }
      RunBySection(h, last, section, true, checkpoint, handler.trace);
      status, checkpoint := DecodeFieldSection(reader, section, checkpoint, handler);
      if !status.Ok? {
        return true, status, checkpoint;
      }
      DeliverOne(h, handler.trace, DoneEvent(section));
      var accepted := handler.On(DoneEvent(section));
      if !accepted {
        return true, Internal, checkpoint;
      }
      section := After(section);
      return false, Ok, checkpoint;
    }

    method DecodeBody(last: bool, reader: QuicheDataReader, checkpoint0: seq<byte>, ghost o: Outcome)
      returns (done: bool, status: Status, checkpoint: seq<byte>)
      requires section.Body? && reader.Valid() && reader.Remaining() == checkpoint0
      requires o == Run(handler.accepts, last, section, true, checkpoint0, handler.trace)
      modifies `section, handler, reader
      ensures Valid() && reader.Valid()
      ensures Progress(last, o, checkpoint0, reader.Remaining(), done, status, checkpoint)
    {
      hide Run, RunSection, Deliver;
      ghost var h := handler.accepts;
      checkpoint := checkpoint0;
      var empty := reader.IsDoneReading();
      if empty && last {
        RunTruncated(h, Body, handler.trace);
        var accepted := handler.On(OnBodyChunksDone);
        if !accepted {
          return true, Internal, checkpoint;
        }
        accepted := handler.On(OnTrailersDone);
        return true, if accepted then Ok else Internal, checkpoint;
      }
      RunBySection(h, last, Body, true, checkpoint, handler.trace);
      status, checkpoint := DecodeBodyChunkSection(reader, checkpoint, handler);
      if !status.Ok? {
        return true, status, checkpoint;
      }
      DeliverOne(h, handler.trace, OnBodyChunksDone);
      var accepted := handler.On(OnBodyChunksDone);
      if !accepted {
        return true, Internal, checkpoint;
      }
      section := Trailer;
      return false, Ok, checkpoint;
    }

    /** One pass of the loop, in whatever section the decoder is. */
    method DecodeSection(last: bool, reader: QuicheDataReader, checkpoint0: seq<byte>, ghost o: Outcome)
      returns (done: bool, status: Status, checkpoint: seq<byte>)
      requires Valid() && !section.End? && reader.Valid() && reader.Remaining() == checkpoint0
      requires o == Run(handler.accepts, last, section, true, checkpoint0, handler.trace)
      modifies `section, handler, reader
      ensures Valid() && reader.Valid()
      ensures Progress(last, o, checkpoint0, reader.Remaining(), done, status, checkpoint)
    {
      hide Run;
      if section.Framing? {
        done, status, checkpoint := DecodeFraming(last, reader, checkpoint0, o);
      } else if section.StatusCode? {
        done, status, checkpoint := DecodeStatusCode(last, reader, checkpoint0, o);
      } else if section.Body? {
        done, status, checkpoint := DecodeBody(last, reader, checkpoint0, o);
      } else if section.Padding? {
        RunPadding(handler.accepts, last, true, checkpoint0, handler.trace);
        var payload := reader.PeekRemainingPayload();
        var valid := IsValidPadding(payload);
        done, status, checkpoint := true, if valid then Ok else InvalidArgument, checkpoint0;
      } else {
        done, status, checkpoint := DecodeFields(last, reader, checkpoint0, o);
      }
    }

    method DecodeCheckpointData(last: bool, checkpoint0: seq<byte>) returns (status: Status, checkpoint: seq<byte>)
      requires Valid() && !section.End?
      modifies `section, handler
      ensures Valid()
      ensures Matches(last, Run(handler.accepts, last, old(section), true, checkpoint0, old(handler.trace)),
                      handler.trace, section, status, checkpoint)
    {
      hide Run, Matches;
      ghost var o := Run(handler.accepts, last, section, true, checkpoint0, handler.trace);
      checkpoint := checkpoint0;
      var reader := new QuicheDataReader(checkpoint);
      var empty := reader.IsDoneReading();
      while !empty || last
        invariant Valid() && !section.End? && reader.Valid() && fresh(reader)
        invariant reader.Remaining() == checkpoint && (empty <==> checkpoint == [])
        invariant o == Run(handler.accepts, last, section, true, checkpoint, handler.trace)
        decreases |checkpoint|
      {
        var done;
        done, status, checkpoint := DecodeSection(last, reader, checkpoint, o);
        if done {
          return;
        }
        empty := reader.IsDoneReading();
      }
      RunNothing(handler.accepts, section, handler.trace);
      MatchesNothing(section, handler.trace);
      status := OutOfRange;
    }

    /** One call does exactly what `BinaryHttpStream.Decode` says. */
    method Decode(data: seq<byte>, last: bool) returns (status: Status)
      requires Valid()
      modifies this, handler
      ensures Valid()
      ensures (Abstract(), status) == BinaryHttpStream.Decode(handler.accepts, old(Abstract()), data, last)
    {
      hide Run;
      if section.End? {
        return Internal;
      }
      var checkpoint := data;
      if buffer != [] {
        buffer := buffer + data;
        checkpoint := buffer;
      } else {
        assert buffer + data == data;
      }
      status, checkpoint := DecodeCheckpointData(last, checkpoint);
      if last {
        section := End;
        buffer := [];
        if status.OutOfRange? {
          return InvalidArgument;
        }
        return;
      } else if status.OutOfRange? {
        buffer := checkpoint;
        return Ok;
      } else if !status.Ok? {
        section := End;
      }
      buffer := [];
    }
  }

  lemma RunStatus(h: Handler, last: bool, s: seq<byte>, trace: seq<Event>)
    ensures Run(h, last, StatusCode, true, s, trace) ==
            match VarInt62.Read(s)
            case Short => Outcome(trace, Waiting(StatusCode, true, s))
            case Got(code, rest) =>
              if code < 100 || code > 599 then Outcome(trace, Failed(InvalidArgument))
              else if code <= 199 then
                var t := trace + [OnInformationalStatusCode(code)];
                if h(t) then Run(h, last, InformationalHeader, true, rest, t) else Outcome(t, Failed(Internal))
              else
                var t1 := trace + [OnInformationalSectionDone];
                var t2 := t1 + [OnFinalStatusCode(code)];
                if !h(t1) then Outcome(t1, Failed(Internal))
                else if !h(t2) then Outcome(t2, Failed(Internal))
                else Run(h, last, FinalHeader, true, rest, t2)
  {
    hide VarInt62.Read;
    if VarInt62.Read(s).Got? {
      var code := VarInt62.Read(s).value;
      DeliverOne(h, trace, OnInformationalStatusCode(code));
      DeliverTwo(h, trace, OnInformationalSectionDone, OnFinalStatusCode(code));
    }
  }

  lemma MatchesNothing(sec: Section, trace: seq<Event>)
    ensures Matches(false, Outcome(trace, Waiting(sec, true, [])), trace, sec, OutOfRange, [])
  {
  }

  lemma RunNothing(h: Handler, sec: Section, trace: seq<Event>)
    requires !sec.End?
    ensures Run(h, false, sec, true, [], trace) == Outcome(trace, Waiting(sec, true, []))
  {
    hide NextUnit;
    BinaryHttpSplit.NoUnitInNothing(sec);
  }
}
