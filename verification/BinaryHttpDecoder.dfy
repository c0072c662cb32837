/** The resumable decoders for indeterminate-length requests and responses. */
module BinaryHttpDecoder {
  import opened Bytes
  import VarInt62
  import opened DataReader
  import opened BinaryHttpStream

  /** Records every callback and answers each as `accepts` says. */
  class MessageSectionHandler {
    const accepts: Handler
    var trace: seq<Event>

    constructor (accepts: Handler)
      ensures this.accepts == accepts && trace == []
    {
      this.accepts := accepts;
      trace := [];
    }

    method On(e: Event) returns (ok: bool)
      modifies this
      ensures trace == old(trace) + [e] && ok == accepts(trace)
    {
      trace := trace + [e];
      ok := accepts(trace);
    }
  }

  // ---------------------------------------------------------------------------------------------
  // Sections closed by a zero length

  datatype SectionResult =
    | Ended(rest: seq<byte>)
    | Starved(rest: seq<byte>, progress: bool)
    | Refused

  /** Decodes entries of `sec` until the terminator, the end of the data or a refusal. */
  function RunSection(h: Handler, sec: Section, s: seq<byte>, trace: seq<Event>, progress: bool)
    : (r: (seq<Event>, SectionResult))
    requires IsTerminated(sec)
    ensures r.1.Ended? ==> |r.1.rest| < |s|
    decreases |s|
  {
    match NextUnit(sec, s)
    case Unit(events, next, rest) =>
      if next != sec then (trace, Ended(rest))
      else
        var (t, ok) := Deliver(h, trace, events);
        if ok then RunSection(h, sec, rest, t, true) else (t, Refused)
    case _ => (trace, Starved(s, progress))
  }

  /** A terminated section never malforms; its last unit is its terminator. */
  lemma TerminatedUnit(sec: Section, s: seq<byte>)
    requires IsTerminated(sec)
    ensures var u := NextUnit(sec, s);
            && !u.Malformed?
            && (u.Unit? && u.next != sec ==> u.events == [DoneEvent(sec)] && u.next == After(sec))
            && (u.Unit? && u.next == sec ==> |u.events| == 1)
  {
    hide VarInt62.Read, ReadField, VarInt62.Take;
  }

  /** A whole run, section by section. */
  lemma {:induction false} RunBySection(h: Handler, last: bool, sec: Section, entered: bool, s: seq<byte>,
                                        trace: seq<Event>)
    requires IsTerminated(sec) && !TruncationPoint(last, sec, entered, s)
    ensures var (t, r) := RunSection(h, sec, s, trace, !entered);
            Run(h, last, sec, entered, s, trace) ==
            match r
            case Starved(rest, progress) => Outcome(t, Waiting(sec, !progress, rest))
            case Refused => Outcome(t, Failed(Internal))
            case Ended(rest) => AfterSection(h, last, sec, rest, t)
    decreases |s|
  {
    hide NextUnit, Deliver;
    TerminatedUnit(sec, s);
    var u := NextUnit(sec, s);
    if u.Unit? && u.next == sec {
      var (t, ok) := Deliver(h, trace, u.events);
      if ok {
        RunBySection(h, last, sec, false, u.rest, t);
      }
    }
  }

  /** The terminator of `sec` has been read. */
  function AfterSection(h: Handler, last: bool, sec: Section, rest: seq<byte>, trace: seq<Event>): Outcome
    requires IsTerminated(sec)
  {
    var (t, ok) := Deliver(h, trace, [DoneEvent(sec)]);
    if ok then Run(h, last, After(sec), true, rest, t) else Outcome(t, Failed(Internal))
  }

  lemma DeliverOne(h: Handler, trace: seq<Event>, e: Event)
    ensures Deliver(h, trace, [e]) == (trace + [e], h(trace + [e]))
  {
    assert [e][1..] == [];
  }

  lemma DeliverTwo(h: Handler, trace: seq<Event>, e: Event, f: Event)
    ensures Deliver(h, trace, [e, f]) ==
            if h(trace + [e]) then (trace + [e] + [f], h(trace + [e] + [f])) else (trace + [e], false)
  {
    assert [e, f][1..] == [f];
    DeliverOne(h, trace + [e], f);
  }

  /** Padding is checked all at once. */
  lemma {:induction false} RunPadding(h: Handler, last: bool, entered: bool, s: seq<byte>, trace: seq<Event>)
    ensures var o := Run(h, last, Padding, entered, s, trace);
            && o.trace == trace
            && if forall i :: 0 <= i < |s| ==> s[i] == 0
               then o.result.Waiting? && o.result.section.Padding? && o.result.rest == []
               else o.result == Failed(InvalidArgument)
    decreases |s|
  {
    if s != [] && s[0] == 0 {
      RunPadding(h, last, false, s[1..], trace);
      assert forall i :: 0 <= i < |s[1..]| ==> s[1..][i] == s[i + 1];
      assert s == [s[0]] + s[1..];
    }
  }

  method IsValidPadding(data: seq<byte>) returns (valid: bool)
    ensures valid <==> forall i :: 0 <= i < |data| ==> data[i] == 0
  {
    for k := 0 to |data|
      invariant forall i :: 0 <= i < k ==> data[i] == 0
    {
      if data[k] != 0 {
        return false;
      }
    }
    valid := true;
  }

  /** A field whose name length has been read. */
  method DecodeField(reader: QuicheDataReader, nameLength: nat) returns (ok: bool, field: Field)
    requires reader.Valid()
    modifies reader
    ensures reader.Valid()
    ensures ok == ReadField(old(reader.Remaining()), nameLength).Got?
    ensures ok ==> ReadField(old(reader.Remaining()), nameLength) == Got(field, reader.Remaining())
  {
    hide VarInt62.ReadString, VarInt62.Take;
    field := Field([], []);
    var name, value;
    ok, name := reader.ReadStringPiece(nameLength);
    if ok {
      ok, value := reader.ReadStringPieceVarInt62();
      if ok {
        field := Field(name, value);
      }
    }
  }

  /** Decodes a section of fields up to and including its terminator.  `checkpoint` follows the last
      complete unit; a callback that is refused is reported as an internal error. */
  method DecodeFieldSection(reader: QuicheDataReader, sec: Section, checkpoint0: seq<byte>,
                            handler: MessageSectionHandler)
    returns (status: Status, checkpoint: seq<byte>)
    requires IsFieldSection(sec) && reader.Valid() && reader.Remaining() == checkpoint0
    modifies reader, handler
    ensures reader.Valid()
    ensures var (t, r) := RunSection(handler.accepts, sec, checkpoint0, old(handler.trace), false);
            && handler.trace == t
            && match r
               case Ended(rest) => status.Ok? && reader.Remaining() == checkpoint == rest
               case Starved(rest, _) => status.OutOfRange? && checkpoint == rest
               case Refused => status.Internal?
  {
    hide VarInt62.Read, ReadField, Deliver;
    ghost var h := handler.accepts;
    ghost var whole := RunSection(h, sec, checkpoint0, handler.trace, false);
    checkpoint := checkpoint0;
    ghost var progress := false;
    while true
      invariant reader.Valid() && reader.Remaining() == checkpoint
      invariant RunSectionSame(h, sec, checkpoint, handler.trace, progress, whole)
      decreases |checkpoint|
    {
      var ok, length := reader.ReadVarInt62();
      if !ok {
        return OutOfRange, checkpoint;
      }
      if length != 0 {
        var ok1, field := DecodeField(reader, length);
        if !ok1 {
          return OutOfRange, checkpoint;
        }
        DeliverOne(h, handler.trace, FieldEvent(sec, field));
        var accepted := handler.On(FieldEvent(sec, field));
        if !accepted {
          return Internal, checkpoint;
        }
      }
      progress := true;
      checkpoint := reader.PeekRemainingPayload();
      if length == 0 {
        return Ok, checkpoint;
      }
    }
  }

  /** The rest of the section comes to the same thing, whether or not something was decoded. */
  ghost predicate RunSectionSame(h: Handler, sec: Section, s: seq<byte>, trace: seq<Event>, progress: bool,
                                 whole: (seq<Event>, SectionResult))
    requires IsTerminated(sec)
  {
    RunSection(h, sec, s, trace, progress) == whole
  }

  /** Decodes body chunks up to and including the terminator of the body. */
  method DecodeBodyChunkSection(reader: QuicheDataReader, checkpoint0: seq<byte>, handler: MessageSectionHandler)
    returns (status: Status, checkpoint: seq<byte>)
    requires reader.Valid() && reader.Remaining() == checkpoint0
    modifies reader, handler
    ensures reader.Valid()
    ensures var (t, r) := RunSection(handler.accepts, Body, checkpoint0, old(handler.trace), false);
            && handler.trace == t
            && match r
               case Ended(rest) => status.Ok? && reader.Remaining() == checkpoint == rest
               case Starved(rest, _) => status.OutOfRange? && checkpoint == rest
               case Refused => status.Internal?
  {
    hide VarInt62.Read, VarInt62.Take, Deliver;
    ghost var h := handler.accepts;
    ghost var whole := RunSection(h, Body, checkpoint0, handler.trace, false);
    checkpoint := checkpoint0;
    ghost var progress := false;
    while true
      invariant reader.Valid() && reader.Remaining() == checkpoint
      invariant RunSectionSame(h, Body, checkpoint, handler.trace, progress, whole)
      decreases |checkpoint|
    {
      var ok, length := reader.ReadVarInt62();
      if !ok {
        return OutOfRange, checkpoint;
      }
      if length != 0 {
        var ok1, chunk := reader.ReadStringPiece(length);
        if !ok1 {
          return OutOfRange, checkpoint;
        }
        DeliverOne(h, handler.trace, OnBodyChunk(chunk));
        var accepted := handler.On(OnBodyChunk(chunk));
        if !accepted {
          return Internal, checkpoint;
        }
      }
      progress := true;
      checkpoint := reader.PeekRemainingPayload();
      if length == 0 {
        return Ok, checkpoint;
      }
    }
  }

  // ---------------------------------------------------------------------------------------------
  // Requests

  method DecodeControlData(reader: QuicheDataReader) returns (ok: bool, control: ControlData)
    requires reader.Valid()
    modifies reader
    ensures reader.Valid()
    ensures ok == ReadControlData(old(reader.Remaining())).Got?
    ensures ok ==> ReadControlData(old(reader.Remaining())) == Got(control, reader.Remaining())
  {
    hide VarInt62.ReadString;
    ghost var s0 := reader.Remaining();
    var verb, scheme, authority, path;
    control := ControlData([], [], [], []);
    ok, verb := reader.ReadStringPieceVarInt62();
    if !ok {
      return;
    }
    ghost var s1 := reader.Remaining();
    ok, scheme := reader.ReadStringPieceVarInt62();
    ghost var s2 := reader.Remaining();
    FourStrings(s0, s1, s2);
    if !ok {
      return;
    }
    ok, authority := reader.ReadStringPieceVarInt62();
    if !ok {
      return;
    }
    ok, path := reader.ReadStringPieceVarInt62();
    if ok {
      control := ControlData(verb, scheme, authority, path);
    }
  }

  lemma FourStrings(s0: seq<byte>, s1: seq<byte>, s2: seq<byte>)
    requires VarInt62.ReadString(s0).Got? && s1 == VarInt62.ReadString(s0).rest
    requires VarInt62.ReadString(s1).Got? ==> s2 == VarInt62.ReadString(s1).rest
    ensures ReadControlData(s0) ==
            match VarInt62.ReadString(s1)
            case Short => Short
            case Got(scheme, _) =>
              match VarInt62.ReadString(s2)
              case Short => Short
              case Got(authority, s3) =>
                match VarInt62.ReadString(s3)
                case Short => Short
                case Got(path, s4) =>
                  Got(ControlData(VarInt62.ReadString(s0).value, scheme, authority, path), s4)
  {
    hide VarInt62.ReadString;
    if VarInt62.ReadString(s1).Got? && VarInt62.ReadString(s2).Got? {
      var s3 := VarInt62.ReadString(s2).rest;
      if VarInt62.ReadString(s3).Got? {
        assert ReadStrings(s3, 1) == Got([VarInt62.ReadString(s3).value] + [], VarInt62.ReadString(s3).rest);
      }
      assert ReadStrings(s2, 2).Short? || |ReadStrings(s2, 2).value| == 2;
    }
    assert ReadStrings(s1, 3).Short? || |ReadStrings(s1, 3).value| == 3;
  }

  /** How the result of decoding from a checkpoint relates to a run over the same bytes. */
  ghost predicate Matches(last: bool, o: Outcome, trace: seq<Event>, section: Section, status: Status,
                          checkpoint: seq<byte>)
  {
    && trace == o.trace
    && match o.result
       case Waiting(sec, _, rest) =>
         && section == sec
         && (if status.Ok? then sec.Padding? && rest == []
             else status.OutOfRange? && checkpoint == rest && (last ==> !sec.Padding?))
       case Failed(st) => status == st && !st.OutOfRange? && !st.Ok?
       case Truncated => status.Ok? && last
  }

  class RequestDecoder {
    const handler: MessageSectionHandler
    var buffer: seq<byte>
    var section: Section

    ghost predicate Valid()
      reads this
    {
      section in {Control, Header, Body, Trailer, Padding, End}
    }

    constructor (handler: MessageSectionHandler)
      ensures Valid() && this.handler == handler
      ensures Abstract() == State(Control, [], handler.trace)
    {
      this.handler := handler;
      buffer := [];
      section := Control;
    }

    /** The decoder as a value. */
    ghost function Abstract(): (st: State)
      reads this, handler
    {
      State(section, buffer, handler.trace)
    }

    method DecodeCheckpointData(last: bool, checkpoint0: seq<byte>) returns (status: Status, checkpoint: seq<byte>)
      requires Valid() && !section.End?
      modifies `section, handler
      ensures Valid()
      ensures Matches(last, Run(handler.accepts, last, old(section), true, checkpoint0, old(handler.trace)),
                      handler.trace, section, status, checkpoint)
    {
      hide Run, RunSection, Deliver;
      ghost var h := handler.accepts;
      ghost var o := Run(h, last, section, true, checkpoint0, handler.trace);
      checkpoint := checkpoint0;
      var reader := new QuicheDataReader(checkpoint);
      if section.Control? {
        status, checkpoint := DecodeControlSection(last, reader, checkpoint, o);
        if !status.Ok? {
          return;
        }
      }
      assert Run(h, last, section, true, checkpoint, handler.trace) == o;
      status, checkpoint := DecodeFromHeader(last, reader, checkpoint, o);
    }

    /** The framing indicator and the control data; success leaves the decoder in the headers. */
    method DecodeControlSection(last: bool, reader: QuicheDataReader, checkpoint0: seq<byte>, ghost o: Outcome)
      returns (status: Status, checkpoint: seq<byte>)
      requires section.Control? && reader.Valid() && reader.Remaining() == checkpoint0
      requires o == Run(handler.accepts, last, Control, true, checkpoint0, handler.trace)
      modifies `section, handler, reader
      ensures reader.Valid()
      ensures if status.Ok? then
                && section.Header? && reader.Remaining() == checkpoint
                && o == Run(handler.accepts, last, Header, true, checkpoint, handler.trace)
              else
                section.Control? && Matches(last, o, handler.trace, section, status, checkpoint)
    {
      hide VarInt62.Read, ReadControlData, Run;
      RunControl(handler.accepts, last, checkpoint0, handler.trace);
      checkpoint := checkpoint0;
      var ok, framing := reader.ReadVarInt62();
      if !ok {
        return OutOfRange, checkpoint;
      }
      if framing != REQUEST_FRAMING {
        return InvalidArgument, checkpoint;
      }
      var ok1, control := DecodeControlData(reader);
      if !ok1 {
        return OutOfRange, checkpoint;
      }
      var accepted := handler.On(OnControlData(control));
      if !accepted {
        return Internal, checkpoint;
      }
      checkpoint := reader.PeekRemainingPayload();
      section := Header;
      status := Ok;
    }

    /** The headers and everything after them. */
    method DecodeFromHeader(last: bool, reader: QuicheDataReader, checkpoint0: seq<byte>, ghost o: Outcome)
      returns (status: Status, checkpoint: seq<byte>)
      requires Valid() && section in {Header, Body, Trailer, Padding}
      requires reader.Valid() && reader.Remaining() == checkpoint0
      requires o == Run(handler.accepts, last, section, true, checkpoint0, handler.trace)
      modifies `section, handler, reader
      ensures Valid()
      ensures Matches(last, o, handler.trace, section, status, checkpoint)
    {
      hide Run, RunSection, Deliver;
      ghost var h := handler.accepts;
      checkpoint := checkpoint0;
      if section.Header? {
        RunBySection(h, last, Header, true, checkpoint, handler.trace);
        status, checkpoint := DecodeFieldSection(reader, Header, checkpoint, handler);
        if !status.Ok? {
          return;
        }
        DeliverOne(h, handler.trace, OnHeadersDone);
        var accepted := handler.On(OnHeadersDone);
        if !accepted {
          return Internal, checkpoint;
        }
        section := Body;
      }
      status, checkpoint := DecodeFromBody(last, reader, checkpoint, o);
    }

    /** The body, the trailers and the padding. */
    method DecodeFromBody(last: bool, reader: QuicheDataReader, checkpoint0: seq<byte>, ghost o: Outcome)
      returns (status: Status, checkpoint: seq<byte>)
      requires Valid() && section in {Body, Trailer, Padding}
      requires reader.Valid() && reader.Remaining() == checkpoint0
      requires o == Run(handler.accepts, last, section, true, checkpoint0, handler.trace)
      modifies `section, handler, reader
      ensures Valid()
      ensures Matches(last, o, handler.trace, section, status, checkpoint)
    {
      hide Run, RunSection, Deliver;
      ghost var h := handler.accepts;
      checkpoint := checkpoint0;
      if section.Body? {
        var done := reader.IsDoneReading();
        if done && last {
          RunTruncated(h, Body, handler.trace);
          var accepted := handler.On(OnBodyChunksDone);
          if !accepted {
            return Internal, checkpoint;
          }
          accepted := handler.On(OnTrailersDone);
          if !accepted {
            return Internal, checkpoint;
          }
          return Ok, checkpoint;
        }
        RunBySection(h, last, Body, true, checkpoint, handler.trace);
        status, checkpoint := DecodeBodyChunkSection(reader, checkpoint, handler);
        if !status.Ok? {
          return;
        }
        DeliverOne(h, handler.trace, OnBodyChunksDone);
        var accepted := handler.On(OnBodyChunksDone);
        if !accepted {
          return Internal, checkpoint;
        }
        section := Trailer;
      }
      assert Run(h, last, section, true, checkpoint, handler.trace) == o;
      status, checkpoint := DecodeFromTrailer(last, reader, checkpoint, o);
    }

    method DecodeFromTrailer(last: bool, reader: QuicheDataReader, checkpoint0: seq<byte>, ghost o: Outcome)
      returns (status: Status, checkpoint: seq<byte>)
      requires Valid() && section in {Trailer, Padding}
      requires reader.Valid() && reader.Remaining() == checkpoint0
      requires o == Run(handler.accepts, last, section, true, checkpoint0, handler.trace)
      modifies `section, handler, reader
      ensures Valid()
      ensures Matches(last, o, handler.trace, section, status, checkpoint)
    {
      hide Run, RunSection, Deliver;
      ghost var h := handler.accepts;
      checkpoint := checkpoint0;
      if section.Trailer? {
        var done := reader.IsDoneReading();
        if done && last {
          RunTruncated(h, Trailer, handler.trace);
          var accepted := handler.On(OnTrailersDone);
          if !accepted {
            return Internal, checkpoint;
          }
          return Ok, checkpoint;
        }
        RunBySection(h, last, Trailer, true, checkpoint, handler.trace);
        status, checkpoint := DecodeFieldSection(reader, Trailer, checkpoint, handler);
        if !status.Ok? {
          return;
        }
        DeliverOne(h, handler.trace, OnTrailersDone);
        var accepted := handler.On(OnTrailersDone);
        if !accepted {
          return Internal, checkpoint;
        }
        section := Padding;
      }
      assert Run(h, last, section, true, checkpoint, handler.trace) == o;
      RunPadding(h, last, true, checkpoint, handler.trace);
      var payload := reader.PeekRemainingPayload();
      var valid := IsValidPadding(payload);
      status := if valid then Ok else InvalidArgument;
    }

    /** One call does exactly what `BinaryHttpStream.Decode` says. */
    method Decode(data: seq<byte>, last: bool) returns (status: Status)
      requires Valid()
      modifies this, handler
      ensures Valid()
      ensures (Abstract(), status) == BinaryHttpStream.Decode(handler.accepts, old(Abstract()), data, last)
    {
      hide Run;
      if section.End? {
        return Internal;
      }
      var checkpoint := data;
      if buffer != [] {
        buffer := buffer + data;
        checkpoint := buffer;
      } else {
        assert buffer + data == data;
      }
      status, checkpoint := DecodeCheckpointData(last, checkpoint);
      if last {
        section := End;
        buffer := [];
        if status.OutOfRange? {
          return InvalidArgument;
        }
        return;
      }
      if status.OutOfRange? {
        buffer := checkpoint;
        return Ok;
      }
      if !status.Ok? {
        section := End;
      }
      buffer := [];
    }
  }

  lemma RunControl(h: Handler, last: bool, s: seq<byte>, trace: seq<Event>)
    ensures Run(h, last, Control, true, s, trace) ==
            match VarInt62.Read(s)
            case Short => Outcome(trace, Waiting(Control, true, s))
            case Got(framing, s1) =>
              if framing != REQUEST_FRAMING then Outcome(trace, Failed(InvalidArgument))
              else
                match ReadControlData(s1)
                case Short => Outcome(trace, Waiting(Control, true, s))
                case Got(control, rest) =>
                  var t := trace + [OnControlData(control)];
                  if h(t) then Run(h, last, Header, true, rest, t) else Outcome(t, Failed(Internal))
  {
    hide VarInt62.Read, ReadControlData;
    var u := ControlUnit(s);
    if u.Unit? {
      DeliverOne(h, trace, u.events[0]);
      assert u.events == [u.events[0]];
    }
  }

  /** A stream that ends where the body or the trailers would begin. */
  lemma RunTruncated(h: Handler, sec: Section, trace: seq<Event>)
    requires sec.Body? || sec.Trailer?
    ensures Run(h, true, sec, true, [], trace) ==
            var (t, ok) := Deliver(h, trace, TruncationEvents(sec));
            Outcome(t, if ok then Truncated else Failed(Internal))
    ensures sec.Body? ==>
              Deliver(h, trace, TruncationEvents(sec)) ==
              var t := trace + [OnBodyChunksDone];
              if h(t) then (t + [OnTrailersDone], h(t + [OnTrailersDone])) else (t, false)
    ensures sec.Trailer? ==>
              Deliver(h, trace, TruncationEvents(sec)) == (trace + [OnTrailersDone], h(trace + [OnTrailersDone]))
  {
    DeliverTwo(h, trace, OnBodyChunksDone, OnTrailersDone);
    DeliverOne(h, trace, OnTrailersDone);
  }
}
