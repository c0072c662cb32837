/** Indeterminate-length Binary HTTP (RFC 9292, sections 3.1, 3.2 and 3.8): what a stream of bytes
    means, independently of how it is cut into `Decode` calls.  */
module BinaryHttpStream {
  import opened Bytes
  import VarInt62

  datatype Field = Field(name: seq<byte>, value: seq<byte>)

  datatype ControlData =
    ControlData(verb: seq<byte>, scheme: seq<byte>, authority: seq<byte>, path: seq<byte>)

  /** The sections of a request (`Control` to `End`) and of a response (`Framing` to `End`). */
  datatype Section =
    | Control | Header
    | Framing | StatusCode | InformationalHeader | FinalHeader
    | Body | Trailer | Padding | End

  /** The callbacks a message section handler receives. */
  datatype Event =
    | OnControlData(control: ControlData)
    | OnHeader(field: Field)
    | OnHeadersDone
    | OnInformationalStatusCode(code: nat)
    | OnInformationalHeader(field: Field)
    | OnInformationalResponseDone
    | OnInformationalSectionDone
    | OnFinalStatusCode(code: nat)
    | OnFinalHeader(field: Field)
    | OnFinalHeadersDone
    | OnBodyChunk(chunk: seq<byte>)
    | OnBodyChunksDone
    | OnTrailer(field: Field)
    | OnTrailersDone

  datatype Status = Ok | OutOfRange | InvalidArgument | Internal

  const REQUEST_FRAMING: nat := 2
  const RESPONSE_FRAMING: nat := 3

  /** A handler may refuse any callback, given everything it has been told so far. */
  type Handler = seq<Event> -> bool

  // ---------------------------------------------------------------------------------------------
  // One unit of the stream

  /** One decodable unit: it is not all there, it is malformed, or it causes callbacks. */
  datatype Unit =
    | NotYet
    | Malformed
    | Unit(events: seq<Event>, next: Section, rest: seq<byte>)

  /** The next `n` length-prefixed strings. */
  function ReadStrings(s: seq<byte>, n: nat): (r: Parsed<seq<seq<byte>>>)
    ensures r.Got? ==> |r.value| == n && |r.rest| + n <= |s|
    decreases n
  {
    if n == 0 then Got([], s)
    else
      match VarInt62.ReadString(s)
      case Short => Short
      case Got(first, s1) =>
        match ReadStrings(s1, n - 1)
        case Short => Short
        case Got(others, rest) => Got([first] + others, rest)
  }

  function ReadControlData(s: seq<byte>): (r: Parsed<ControlData>)
    ensures r.Got? ==> |r.rest| < |s|
  {
    match ReadStrings(s, 4)
    case Short => Short
    case Got(parts, rest) => Got(ControlData(parts[0], parts[1], parts[2], parts[3]), rest)
  }

  /** A field whose name is `nameLength` bytes long. */
  function ReadField(s: seq<byte>, nameLength: nat): (r: Parsed<Field>)
    ensures r.Got? ==> |r.rest| < |s|
  {
    match VarInt62.Take(s, nameLength)
    case Short => Short
    case Got(name, s1) =>
      match VarInt62.ReadString(s1)
      case Short => Short
      case Got(value, s2) => Got(Field(name, value), s2)
  }

  predicate IsFieldSection(sec: Section) {
    sec.Header? || sec.InformationalHeader? || sec.FinalHeader? || sec.Trailer?
  }

  /** Sections made of length-prefixed entries and closed by a zero length. */
  predicate IsTerminated(sec: Section) {
    IsFieldSection(sec) || sec.Body?
  }

  function FieldEvent(sec: Section, f: Field): Event
    requires IsFieldSection(sec)
  {
    match sec
    case Header => OnHeader(f)
    case InformationalHeader => OnInformationalHeader(f)
    case FinalHeader => OnFinalHeader(f)
    case _ => OnTrailer(f)
  }

  function DoneEvent(sec: Section): Event
    requires IsTerminated(sec)
  {
    match sec
    case Header => OnHeadersDone
    case InformationalHeader => OnInformationalResponseDone
    case FinalHeader => OnFinalHeadersDone
    case Body => OnBodyChunksDone
    case _ => OnTrailersDone
  }

  function After(sec: Section): Section
    requires IsTerminated(sec)
  {
    match sec
    case Header => Body
    case InformationalHeader => StatusCode
    case FinalHeader => Body
    case Body => Trailer
    case _ => Padding
  }

  function EntryUnit(sec: Section, length: nat, s: seq<byte>): (u: Unit)
    requires IsTerminated(sec)
    ensures u.Unit? ==> |u.rest| <= |s|
  {
    if length == 0 then
      Unit([DoneEvent(sec)], After(sec), s)
    else if sec.Body? then
      match VarInt62.Take(s, length) {
        case Short => NotYet
        case Got(chunk, rest) => Unit([OnBodyChunk(chunk)], sec, rest)
      }
    else
      match ReadField(s, length) {
        case Short => NotYet
        case Got(f, rest) => Unit([FieldEvent(sec, f)], sec, rest)
      }
  }

  function ControlUnit(s: seq<byte>): (u: Unit)
    ensures u.Unit? ==> |u.rest| < |s|
  {
    match VarInt62.Read(s)
    case Short => NotYet
    case Got(framing, s1) =>
      if framing != REQUEST_FRAMING then Malformed
      else
        match ReadControlData(s1)
        case Short => NotYet
        case Got(control, rest) => Unit([OnControlData(control)], Header, rest)
  }

  function StatusUnit(code: nat, rest: seq<byte>): (u: Unit)
    ensures u.Unit? ==> u.rest == rest
  {
    if code < 100 || code > 599 then Malformed
    else if code <= 199 then Unit([OnInformationalStatusCode(code)], InformationalHeader, rest)
    else Unit([OnInformationalSectionDone, OnFinalStatusCode(code)], FinalHeader, rest)
  }

  function NextUnit(sec: Section, s: seq<byte>): (u: Unit)
    ensures u.Unit? ==> |u.rest| < |s|
  {
    match sec
    case End => Malformed
    case Control => ControlUnit(s)
    case Framing =>
      (match VarInt62.Read(s)
       case Short => NotYet
       case Got(framing, rest) =>
         if framing != RESPONSE_FRAMING then Malformed else Unit([], StatusCode, rest))
    case StatusCode =>
      (match VarInt62.Read(s)
       case Short => NotYet
       case Got(code, rest) => StatusUnit(code, rest))
    case Padding =>
      if s == [] then NotYet
      else if s[0] != 0 then Malformed
      else Unit([], Padding, s[1..])
    case _ =>
      (match VarInt62.Read(s)
       case Short => NotYet
       case Got(length, rest) => EntryUnit(sec, length, rest))
  }

  /** The same unit with `b` appended to what is left over. */
  function Extended(u: Unit, b: seq<byte>): Unit {
    if u.Unit? then u.(rest := u.rest + b) else u
  }

  // ---------------------------------------------------------------------------------------------
  // A run over all the bytes at hand

  /** Tells the handler about `events` in turn, stopping at the first refusal. */
  function Deliver(h: Handler, trace: seq<Event>, events: seq<Event>): (r: (seq<Event>, bool))
    decreases |events|
  {
    if events == [] then (trace, true)
    else
      var t := trace + [events[0]];
      if h(t) then Deliver(h, t, events[1..]) else (t, false)
  }

  /** How a run ends: it waits for more in a section with some bytes left over (`entered` says that
      nothing of that section has been decoded yet), it fails, or the stream may end here because
      the rest of the message was legitimately left off. */
  datatype Result =
    | Waiting(section: Section, entered: bool, rest: seq<byte>)
    | Failed(status: Status)
    | Truncated

  datatype Outcome = Outcome(trace: seq<Event>, result: Result)

  /** Body and trailers may be missing altogether, but only from a stream that is known to end. */
  predicate TruncationPoint(last: bool, sec: Section, entered: bool, s: seq<byte>) {
    last && entered && s == [] && (sec.Body? || sec.Trailer?)
  }

  /** The callbacks owed for the sections that a truncated message leaves off. */
  function TruncationEvents(sec: Section): seq<Event> {
    if sec.Body? then [OnBodyChunksDone, OnTrailersDone] else [OnTrailersDone]
  }

  function Run(h: Handler, last: bool, sec: Section, entered: bool, s: seq<byte>, trace: seq<Event>): (o: Outcome)
    decreases |s|
  {
    if TruncationPoint(last, sec, entered, s) then
      var (t, ok) := Deliver(h, trace, TruncationEvents(sec));
      Outcome(t, if ok then Truncated else Failed(Internal))
    else
      match NextUnit(sec, s)
      case NotYet => Outcome(trace, Waiting(sec, entered, s))
      case Malformed => Outcome(trace, Failed(InvalidArgument))
      case Unit(events, next, rest) =>
        var (t, ok) := Deliver(h, trace, events);
        if ok then Run(h, last, next, next != sec, rest, t) else Outcome(t, Failed(Internal))
  }

  // ---------------------------------------------------------------------------------------------
  // A sequence of Decode calls

  /** Everything a decoder carries from one call to the next, and what its handler was told. */
  datatype State = State(section: Section, buffer: seq<byte>, trace: seq<Event>)

  /** One call of `Decode`. */
  function Decode(h: Handler, st: State, data: seq<byte>, last: bool): (r: (State, Status)) {
    if st.section.End? then (st, Internal)
    else
      var o := Run(h, last, st.section, true, st.buffer + data, st.trace);
      if last then
        (State(End, [], o.trace), FinalStatus(o.result))
      else
        match o.result
        case Waiting(sec, _, rest) => (State(sec, rest, o.trace), Ok)
        case Failed(status) => (State(End, [], o.trace), status)
        case Truncated => (State(End, [], o.trace), Ok)
  }

  /** Only padding may be open when the stream ends. */
  function FinalStatus(r: Result): Status {
    match r
    case Waiting(sec, _, _) => if sec.Padding? then Ok else InvalidArgument
    case Failed(status) => status
    case Truncated => Ok
  }

  /** A stream received in pieces, none of them marked as the last. */
  function DecodeAll(h: Handler, st: State, pieces: seq<seq<byte>>): (r: (State, bool))
    decreases |pieces|
  {
    if pieces == [] then (st, true)
    else
      var (st1, status) := Decode(h, st, pieces[0], false);
      var (st2, ok) := DecodeAll(h, st1, pieces[1..]);
      (st2, status.Ok? && ok)
  }
}
