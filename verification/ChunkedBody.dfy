/** The body part of an HTTP/1 message (RFC 9112, sections 6 and 7), one byte at a time. */
module ChunkedBody {

  const SIZE_MAX: nat := 0xffff_ffff_ffff_ffff

  datatype ParseState =
    | ReadingChunkLength
    | ReadingChunkExtension
    | ReadingChunkData
    | ReadingChunkTerm
    | ReadingLastChunkTerm
    | ReadingTrailer
    | ReadingUntilClose
    | ReadingContent
    | MessageFullyRead
    | ErrorState

  datatype ErrorCode =
    | NoError
    | ChunkLengthOverflow
    | InvalidChunkLength
    | InvalidChunkExtension
    | StrayDataAfterChunk
    | InvalidChunkFraming

  /** The validation settings that bear on a chunked body. */
  datatype Policy = Policy(disallowLoneCr: bool, disallowLoneLf: bool,
                           disallowStrayData: bool, requireCrlfCrlf: bool)

  /** What the framer carries from byte to byte.  `lastCr` is kept only inside a chunk extension. */
  datatype Framer = Framer(
    state: ParseState,
    chunkRemaining: nat,
    contentRemaining: nat,
    lengthSeen: bool,
    lastCr: bool,
    crAfterChunk: bool,
    termChars: nat,
    error: ErrorCode)

  /** The callbacks of the visitor, with body data split into single bytes. */
  datatype Atom =
    | OnChunkLength(length: nat)
    | OnBody(c: char)
    | OnMessageDone
    | OnWarning(code: ErrorCode)
    | OnError(code: ErrorCode)

  /** The framer together with everything its visitor has been given. */
  datatype Machine = Machine(f: Framer, trace: seq<Atom>, raw: string, trailer: string)

  function HexDigit(c: char): (d: int)
    ensures -1 <= d < 16
  {
    if '0' <= c <= '9' then c as int - '0' as int
    else if 'a' <= c <= 'f' then c as int - 'a' as int + 10
    else if 'A' <= c <= 'F' then c as int - 'A' as int + 10
    else -1
  }

  predicate IsDelimiter(c: char) {
    c == '\t' || c == '\n' || c == '\r' || c == ' ' || c == ';'
  }

  /** A framer that waits for data has data to wait for; chunk lengths fit a machine word. */
  predicate Consistent(f: Framer) {
    && f.chunkRemaining <= SIZE_MAX
    && (f.state.ReadingChunkData? ==> f.chunkRemaining > 0)
    && (f.state.ReadingContent? ==> f.contentRemaining > 0)
  }

  function Fail(m: Machine, code: ErrorCode): Machine {
    m.(f := m.f.(state := ErrorState, error := code), trace := m.trace + [OnError(code)])
  }

  function Raw(m: Machine, c: char): Machine {
    m.(raw := m.raw + [c])
  }

  // ---------------------------------------------------------------------------------------------
  // The end of a header or trailer block

  const TERM1: nat := 0x0a0d0a
  const TERM2: nat := 0x0a0a

  datatype Framing = NotFound | FoundCrlf | FoundLf

  /** The last four line-end bytes, as one 32-bit number. */
  function Shifted(term: nat, c: char): (t: nat)
    requires c == '\r' || c == '\n'
    ensures t < 0x1_0000_0000
  {
    (term * 0x100 + c as int) % 0x1_0000_0000
  }

  function HeaderFraming(term: nat, c: char): (r: (nat, Framing)) {
    if c == '\r' || c == '\n' then
      var t := Shifted(term, c);
      if t % 0x100_0000 == TERM1 then (0, FoundCrlf)
      else if t % 0x1_0000 == TERM2 then (0, FoundLf)
      else (t, NotFound)
    else (0, NotFound)
  }

  // ---------------------------------------------------------------------------------------------
  // One byte

  function LengthStep(p: Policy, m: Machine, c: char): (m': Machine)
    requires Consistent(m.f)
    ensures Consistent(m'.f)
  {
    var d := HexDigit(c);
    if d >= 0 then
      var length := m.f.chunkRemaining * 16 + d;
      if length > SIZE_MAX then Fail(Raw(m, c), ChunkLengthOverflow)
      else Raw(m, c).(f := m.f.(lengthSeen := true, chunkRemaining := length))
    else if !m.f.lengthSeen || !IsDelimiter(c) then Fail(Raw(m, c), InvalidChunkLength)
    else ExtensionStep(p, EnterExtension(m), c)
  }

  /** The delimiter after the digits belongs to the extension. */
  function EnterExtension(m: Machine): (m': Machine)
    requires Consistent(m.f)
    ensures Consistent(m'.f)
  {
    m.(f := m.f.(state := ReadingChunkExtension, lastCr := false),
       trace := m.trace + [OnChunkLength(m.f.chunkRemaining)])
  }

  predicate BadExtensionByte(p: Policy, lastCr: bool, c: char) {
    if c == '\n' then !lastCr && p.disallowLoneLf else lastCr && p.disallowLoneCr
  }

  function ExtensionStep(p: Policy, m: Machine, c: char): (m': Machine)
    requires Consistent(m.f)
    ensures Consistent(m'.f)
  {
    if BadExtensionByte(p, m.f.lastCr, c) then Fail(m, InvalidChunkExtension)
    else if c == '\n' then LeaveExtension(Raw(m, c))
    else Raw(m, c).(f := m.f.(lastCr := c == '\r'))
  }

  function LeaveExtension(m: Machine): (m': Machine)
    requires Consistent(m.f)
    ensures Consistent(m'.f)
  {
    m.(f := if m.f.chunkRemaining != 0 then
              m.f.(state := ReadingChunkData, lengthSeen := false, lastCr := false)
            else
              m.f.(state := ReadingLastChunkTerm, lengthSeen := false, lastCr := false,
                   termChars := HeaderFraming(m.f.termChars, '\n').0))
  }

  function DataStep(m: Machine, c: char): (m': Machine)
    requires Consistent(m.f) && m.f.state.ReadingChunkData?
    ensures Consistent(m'.f)
  {
    var f := m.f.(chunkRemaining := m.f.chunkRemaining - 1);
    Raw(m, c).(f := if f.chunkRemaining == 0 then f.(state := ReadingChunkTerm, crAfterChunk := false) else f,
               trace := m.trace + [OnBody(c)])
  }

  function Stray(p: Policy, m: Machine): Machine {
    if p.disallowStrayData then Fail(m, StrayDataAfterChunk)
    else m.(f := m.f.(error := StrayDataAfterChunk), trace := m.trace + [OnWarning(StrayDataAfterChunk)])
  }

  function TermStep(p: Policy, m: Machine, c: char): (m': Machine)
    requires Consistent(m.f)
    ensures Consistent(m'.f)
  {
    var m1 := Raw(m, c);
    if c == '\r' then
      var m2 := if m.f.crAfterChunk then Stray(p, m1) else m1;
      if m2.f.state.ErrorState? then m2 else m2.(f := m2.f.(crAfterChunk := true))
    else if c == '\n' then
      var m2 := if !m.f.crAfterChunk then Stray(p, m1) else m1;
      if m2.f.state.ErrorState? then m2 else m2.(f := m2.f.(state := ReadingChunkLength))
    else Stray(p, m1)
  }

  function Done(m: Machine): Machine {
    m.(f := m.f.(state := MessageFullyRead), trace := m.trace + [OnMessageDone])
  }

  function LastTermStep(p: Policy, m: Machine, c: char): (m': Machine)
    requires Consistent(m.f)
    ensures Consistent(m'.f)
  {
    var (term, found) := HeaderFraming(m.f.termChars, c);
    var f := m.f.(termChars := term);
    if !found.NotFound? then
      if p.requireCrlfCrlf && !found.FoundCrlf? then Fail(m.(f := f), InvalidChunkFraming)
      else Done(Raw(m, c).(f := f))
    else if term == 0 then TrailerStep(m.(f := f.(state := ReadingTrailer)), c)
    else Raw(m, c).(f := f)
  }

  function TrailerStep(m: Machine, c: char): (m': Machine)
    requires Consistent(m.f)
    ensures Consistent(m'.f)
  {
    var (term, found) := HeaderFraming(m.f.termChars, c);
    var m1 := m.(f := m.f.(termChars := term), trailer := m.trailer + [c]);
    if found.NotFound? then m1 else Done(m1)
  }

  function ContentStep(m: Machine, c: char): (m': Machine)
    requires Consistent(m.f) && m.f.state.ReadingContent?
    ensures Consistent(m'.f)
  {
    var m1 := Raw(m, c).(f := m.f.(contentRemaining := m.f.contentRemaining - 1), trace := m.trace + [OnBody(c)]);
    if m1.f.contentRemaining == 0 then Done(m1) else m1
  }

  predicate Terminal(f: Framer) {
    f.state.MessageFullyRead? || f.state.ErrorState?
  }

  function Step(p: Policy, m: Machine, c: char): (m': Machine)
    requires Consistent(m.f)
    ensures Consistent(m'.f)
  {
    match m.f.state
    case ReadingChunkLength => LengthStep(p, m, c)
    case ReadingChunkExtension => ExtensionStep(p, m, c)
    case ReadingChunkData => DataStep(m, c)
    case ReadingChunkTerm => TermStep(p, m, c)
    case ReadingLastChunkTerm => LastTermStep(p, m, c)
    case ReadingTrailer => TrailerStep(m, c)
    case ReadingUntilClose => Raw(m, c).(trace := m.trace + [OnBody(c)])
    case ReadingContent => ContentStep(m, c)
    case _ => m
  }

  // ---------------------------------------------------------------------------------------------
  // Any number of bytes

  function Run(p: Policy, m: Machine, s: string): (m': Machine)
    requires Consistent(m.f)
    ensures Consistent(m'.f)
    decreases |s|
  {
    if s == [] then m else Run(p, Step(p, m, s[0]), s[1..])
  }

  /** Bytes up to the end of the message or the first error. */
  function Consumed(p: Policy, m: Machine, s: string): (n: nat)
    requires Consistent(m.f)
    ensures n <= |s|
    decreases |s|
  {
    if s == [] || Terminal(m.f) then 0 else 1 + Consumed(p, Step(p, m, s[0]), s[1..])
  }

  lemma {:induction false} RunSplit(p: Policy, m: Machine, a: string, b: string)
    requires Consistent(m.f)
    ensures Run(p, m, a + b) == Run(p, Run(p, m, a), b)
    decreases |a|
  {
    hide Step;
    if a == [] {
      assert a + b == b;
    } else {
      assert (a + b)[1..] == a[1..] + b;
      RunSplit(p, Step(p, m, a[0]), a[1..], b);
    }
  }

  lemma {:induction false} RunTerminal(p: Policy, m: Machine, s: string)
    requires Consistent(m.f) && Terminal(m.f)
    ensures Run(p, m, s) == m
    decreases |s|
  {
    if s != [] {
      RunTerminal(p, m, s[1..]);
    }
  }

  /** The same as far as a caller can tell: nothing but the error and the callbacks counts once an
      error has been reported. */
  predicate Same(a: Machine, b: Machine) {
    && a.f.state == b.f.state && a.f.error == b.f.error && a.trace == b.trace
    && (a.f.state.ErrorState? || a == b)
  }

  lemma RunSame(p: Policy, a: Machine, b: Machine, s: string)
    requires Consistent(a.f) && Consistent(b.f) && Same(a, b)
    ensures Same(Run(p, a, s), Run(p, b, s))
  {
    hide Step;
    if a.f.state.ErrorState? {
      RunTerminal(p, a, s);
      RunTerminal(p, b, s);
    }
  }

  // ---------------------------------------------------------------------------------------------
  // What every run keeps

  /** Trailer bytes come after all raw body bytes. */
  predicate Ordered(m: Machine) {
    m.trailer == [] || m.f.state.ReadingTrailer? || Terminal(m.f)
  }

  lemma StepConserves(p: Policy, m: Machine, c: char)
    requires Consistent(m.f) && Ordered(m) && !Terminal(m.f)
    ensures var m' := Step(p, m, c);
            Ordered(m') && (!m'.f.state.ErrorState? ==> m'.raw + m'.trailer == m.raw + m.trailer + [c])
  {
    hide HeaderFraming;
    var m' := Step(p, m, c);
    assert m.raw + m.trailer + [c] == m.raw + (m.trailer + [c]);
    if m.trailer == [] {
      assert m.raw + m.trailer + [c] == m.raw + [c] + [];
    }
  }

  /** Byte conservation: on a run without an error, the raw body followed by the trailer is exactly
      what was consumed. */
  lemma {:induction false} RunConserves(p: Policy, m: Machine, s: string)
    requires Consistent(m.f) && Ordered(m)
    ensures var m' := Run(p, m, s);
            Ordered(m') && (!m'.f.state.ErrorState? ==>
                              m'.raw + m'.trailer == m.raw + m.trailer + s[..Consumed(p, m, s)])
    decreases |s|
  {
    hide Step;
    if Terminal(m.f) {
      RunTerminal(p, m, s);
      assert m.raw + m.trailer + s[..0] == m.raw + m.trailer;
    } else if s == [] {
      assert m.raw + m.trailer + s[..0] == m.raw + m.trailer;
    } else {
      var m1 := Step(p, m, s[0]);
      StepConserves(p, m, s[0]);
      RunConserves(p, m1, s[1..]);
      if m1.f.state.ErrorState? {
        RunTerminal(p, m1, s[1..]);
      }
      var n := Consumed(p, m1, s[1..]);
      assert s[..n + 1] == [s[0]] + s[1..][..n];
      assert m.raw + m.trailer + [s[0]] + s[1..][..n] == m.raw + m.trailer + ([s[0]] + s[1..][..n]);
    }
  }

  /** How often the end of the message has been announced. */
  function Dones(trace: seq<Atom>): nat {
    if trace == [] then 0
    else Dones(trace[..|trace| - 1]) + if trace[|trace| - 1].OnMessageDone? then 1 else 0
  }

  lemma DonesAppend(trace: seq<Atom>, a: Atom)
    ensures Dones(trace + [a]) == Dones(trace) + if a.OnMessageDone? then 1 else 0
  {
    assert (trace + [a])[..|trace|] == trace;
  }

  function AsNat(b: bool): nat { if b then 1 else 0 }

  /** `m'` follows on `m` and announces the end if and only if it is at the end. */
  predicate Announced(m: Machine, m': Machine) {
    Dones(m'.trace) == Dones(m.trace) + AsNat(m'.f.state.MessageFullyRead?)
  }

  lemma FailAnnounced(m: Machine, code: ErrorCode)
    ensures Announced(m, Fail(m, code))
  {
    DonesAppend(m.trace, OnError(code));
  }

  lemma DoneAnnounced(m: Machine)
    ensures Announced(m, Done(m))
  {
    DonesAppend(m.trace, OnMessageDone);
  }

  lemma ExtensionAnnounced(p: Policy, m: Machine, c: char)
    requires Consistent(m.f) && !m.f.state.MessageFullyRead?
    ensures Announced(m, ExtensionStep(p, m, c))
  {
    hide Dones, HeaderFraming;
    FailAnnounced(m, InvalidChunkExtension);
  }

  lemma LengthAnnounced(p: Policy, m: Machine, c: char)
    requires Consistent(m.f) && !m.f.state.MessageFullyRead?
    ensures Announced(m, LengthStep(p, m, c))
  {
    hide Dones, ExtensionStep;
    FailAnnounced(Raw(m, c), ChunkLengthOverflow);
    FailAnnounced(Raw(m, c), InvalidChunkLength);
    DonesAppend(m.trace, OnChunkLength(m.f.chunkRemaining));
    ExtensionAnnounced(p, EnterExtension(m), c);
  }

  lemma TermAnnounced(p: Policy, m: Machine, c: char)
    requires Consistent(m.f) && !m.f.state.MessageFullyRead?
    ensures Announced(m, TermStep(p, m, c))
  {
    hide Dones;
    FailAnnounced(Raw(m, c), StrayDataAfterChunk);
    DonesAppend(m.trace, OnWarning(StrayDataAfterChunk));
  }

  lemma TrailerAnnounced(m: Machine, c: char)
    requires Consistent(m.f) && !m.f.state.MessageFullyRead?
    ensures Announced(m, TrailerStep(m, c))
  {
    hide Dones, HeaderFraming;
    DonesAppend(m.trace, OnMessageDone);
  }

  lemma LastTermAnnounced(p: Policy, m: Machine, c: char)
    requires Consistent(m.f) && !m.f.state.MessageFullyRead?
    ensures Announced(m, LastTermStep(p, m, c))
  {
    hide Dones, HeaderFraming, TrailerStep;
    var f := m.f.(termChars := HeaderFraming(m.f.termChars, c).0);
    FailAnnounced(m.(f := f), InvalidChunkFraming);
    DoneAnnounced(Raw(m, c).(f := f));
    TrailerAnnounced(m.(f := f.(state := ReadingTrailer)), c);
  }

  lemma StepDone(p: Policy, m: Machine, c: char)
    requires Consistent(m.f) && !Terminal(m.f)
    ensures Announced(m, Step(p, m, c))
  {
    hide Dones, LengthStep, ExtensionStep, TermStep, LastTermStep, TrailerStep;
    match m.f.state
    case ReadingChunkLength => LengthAnnounced(p, m, c);
    case ReadingChunkExtension => ExtensionAnnounced(p, m, c);
    case ReadingChunkTerm => TermAnnounced(p, m, c);
    case ReadingLastChunkTerm => LastTermAnnounced(p, m, c);
    case ReadingTrailer => TrailerAnnounced(m, c);
    case _ =>
      DonesAppend(m.trace, OnBody(c));
      DonesAppend(m.trace + [OnBody(c)], OnMessageDone);
  }

  /** The end of the message is announced exactly once on the way to `MessageFullyRead`, and never
      on the way anywhere else. */
  lemma {:induction false} RunDone(p: Policy, m: Machine, s: string)
    requires Consistent(m.f) && !Terminal(m.f)
    ensures Announced(m, Run(p, m, s))
    decreases |s|
  {
    hide Step, Dones;
    if s != [] {
      var m1 := Step(p, m, s[0]);
      StepDone(p, m, s[0]);
      if Terminal(m1.f) {
        RunTerminal(p, m1, s[1..]);
      } else {
        RunDone(p, m1, s[1..]);
      }
    }
  }
}
