/** What a sender writes in chunked transfer coding (RFC 9112, section 7.1), and that the framer
    takes it apart again. */
module ChunkedCoding {
  import opened ChunkedBody
  import opened BalsaFrame

  // ---------------------------------------------------------------------------------------------
  // Chunk sizes

  predicate AllHex(s: string) {
    forall i :: 0 <= i < |s| ==> HexDigit(s[i]) >= 0
  }

  /** The number that hexadecimal digits spell, by position. */
  function HexValue(s: string): (v: nat)
    requires AllHex(s)
  {
    if s == [] then 0 else HexValue(s[..|s| - 1]) * 16 + HexDigit(s[|s| - 1])
  }

  /** The same number, as the framer accumulates it on top of `r`. */
  function Accumulate(r: nat, s: string): (v: nat)
    requires AllHex(s)
    ensures v >= r
    decreases |s|
  {
    if s == [] then r else Accumulate(r * 16 + HexDigit(s[0]), s[1..])
  }

  lemma {:induction false} AccumulateSnoc(r: nat, s: string, c: char)
    requires AllHex(s) && HexDigit(c) >= 0
    ensures AllHex(s + [c]) && Accumulate(r, s + [c]) == Accumulate(r, s) * 16 + HexDigit(c)
    decreases |s|
  {
    hide HexDigit;
    assert AllHex(s + [c]);
    if s == [] {
      assert s + [c] == [c];
      assert [c][1..] == [];
    } else {
      assert (s + [c])[1..] == s[1..] + [c];
      AccumulateSnoc(r * 16 + HexDigit(s[0]), s[1..], c);
    }
  }

  lemma {:induction false} AccumulatesValue(s: string)
    requires AllHex(s)
    ensures Accumulate(0, s) == HexValue(s)
    decreases |s|
  {
    hide HexDigit;
    if s != [] {
      var t := s[..|s| - 1];
      AccumulatesValue(t);
      AccumulateSnoc(0, t, s[|s| - 1]);
      assert s == t + [s[|s| - 1]];
    }
  }

  /** The framer has read the digits `s`. */
  function AfterDigits(m: Machine, s: string): (m': Machine)
    requires AllHex(s)
  {
    m.(f := m.f.(chunkRemaining := Accumulate(m.f.chunkRemaining, s), lengthSeen := m.f.lengthSeen || s != []),
       raw := m.raw + s)
  }

  lemma AfterDigitsCons(m: Machine, s: string)
    requires AllHex(s) && s != []
    ensures var f := m.f.(lengthSeen := true, chunkRemaining := m.f.chunkRemaining * 16 + HexDigit(s[0]));
            var m1 := Raw(m, s[0]).(f := f);
            AfterDigits(m, s) == AfterDigits(m1, s[1..])
    ensures AfterDigits(m, []) == m
  {
    hide HexDigit;
    assert m.raw + s == m.raw + [s[0]] + s[1..];
    assert m.raw + [] == m.raw;
  }

  /** Digits are read exactly, and refused if and only if their value does not fit a machine word. */
  lemma {:induction false} DigitsRun(p: Policy, m: Machine, s: string)
    requires Consistent(m.f) && m.f.state.ReadingChunkLength? && AllHex(s)
    ensures var v := Accumulate(m.f.chunkRemaining, s);
            if v <= SIZE_MAX then Run(p, m, s) == AfterDigits(m, s)
            else Run(p, m, s).f.state.ErrorState? && Run(p, m, s).f.error == ChunkLengthOverflow
    decreases |s|
  {
    hide HexDigit, Step, AfterDigits;
    if s == [] {
      assert AfterDigits(m, []) == m by { EmptyDigits(m); }
    } else {
      StepsInLength(p, m, s[0]);
      AfterDigitsCons(m, s);
      var m1 := LengthStep(p, m, s[0]);
      if m1.f.state.ErrorState? {
        RunTerminal(p, m1, s[1..]);
      } else {
        DigitsRun(p, m1, s[1..]);
      }
    }
  }

  lemma EmptyDigits(m: Machine)
    ensures AfterDigits(m, []) == m
  {
    assert m.raw + [] == m.raw;
  }

  /** The chunk size is the value of its digits; a size beyond the machine word is an error. */
  lemma ChunkSizeIsExact(p: Policy, m: Machine, s: string)
    requires Ready(m) && AllHex(s)
    ensures var m' := Run(p, m, s);
            && (m'.f.state.ErrorState? <==> HexValue(s) > SIZE_MAX)
            && (HexValue(s) <= SIZE_MAX ==> m'.f.chunkRemaining == HexValue(s) && m'.f.state.ReadingChunkLength?)
            && (HexValue(s) > SIZE_MAX ==> m'.f.error == ChunkLengthOverflow)
  {
    DigitsRun(p, m, s);
    AccumulatesValue(s);
  }

  // ---------------------------------------------------------------------------------------------
  // The text of a body

  /** A chunk: its size in hexadecimal, an extension or nothing, and its data. */
  datatype Chunk = Chunk(size: string, extension: string, data: string)

  const CRLF: string := "\r\n"

  predicate NoLineEnd(s: string) {
    '\r' !in s && '\n' !in s
  }

  predicate IsExtension(s: string) {
    NoLineEnd(s) && (s != [] ==> s[0] == ' ' || s[0] == '\t' || s[0] == ';')
  }

  predicate ValidSize(size: string, n: nat) {
    size != [] && AllHex(size) && HexValue(size) == n <= SIZE_MAX
  }

  predicate ValidChunk(c: Chunk) {
    ValidSize(c.size, |c.data|) && IsExtension(c.extension) && c.data != []
  }

  function ChunkText(c: Chunk): string {
    c.size + (c.extension + CRLF) + (c.data + CRLF)
  }

  function ChunksText(chunks: seq<Chunk>): string {
    if chunks == [] then [] else ChunkText(chunks[0]) + ChunksText(chunks[1..])
  }

  function ChunksAtoms(chunks: seq<Chunk>): seq<Atom> {
    if chunks == [] then []
    else [OnChunkLength(|chunks[0].data|)] + Bodies(chunks[0].data) + ChunksAtoms(chunks[1..])
  }

  predicate ValidLine(line: string) {
    line != [] && NoLineEnd(line)
  }

  function LinesText(lines: seq<string>): string {
    if lines == [] then [] else lines[0] + CRLF + LinesText(lines[1..])
  }

  /** The chunks, the last chunk, the trailer lines and the empty line. */
  datatype Body = Body(chunks: seq<Chunk>, zero: string, extension: string, trailers: seq<string>)

  predicate ValidBody(b: Body) {
    && (forall i :: 0 <= i < |b.chunks| ==> ValidChunk(b.chunks[i]))
    && ValidSize(b.zero, 0) && IsExtension(b.extension)
    && (forall i :: 0 <= i < |b.trailers| ==> ValidLine(b.trailers[i]))
  }

  function BodyStart(b: Body): string {
    ChunksText(b.chunks) + (b.zero + (b.extension + CRLF))
  }

  function BodyEnd(b: Body): string {
    LinesText(b.trailers) + CRLF
  }

  function BodyText(b: Body): string {
    BodyStart(b) + BodyEnd(b)
  }

  // ---------------------------------------------------------------------------------------------
  // Reading it

  /** In front of a chunk, or of the last chunk. */
  predicate Ready(m: Machine) {
    && m.f.state.ReadingChunkLength? && m.f.chunkRemaining == 0 && !m.f.lengthSeen && !m.f.lastCr
    && m.f.termChars == 0 && m.f.error.NoError?
  }

  lemma TwoSteps(p: Policy, m: Machine, a: char, b: char)
    requires Consistent(m.f)
    ensures Run(p, m, [a, b]) == Step(p, Step(p, m, a), b)
  {
    hide Step;
    var m1 := Step(p, m, a);
    assert [a, b][1..] == [b] && [b][1..] == [];
    assert Run(p, m1, [b]) == Run(p, Step(p, m1, b), []);
  }

  /** Extension bytes other than line ends change nothing but the raw text. */
  lemma {:induction false} ExtensionRun(p: Policy, m: Machine, x: string)
    requires Consistent(m.f) && m.f.state.ReadingChunkExtension? && !m.f.lastCr && NoLineEnd(x)
    ensures Run(p, m, x) == m.(raw := m.raw + x)
    decreases |x|
  {
    hide Step;
    if x == [] {
      assert m.raw + [] == m.raw;
    } else {
      StepsElsewhere(p, m, x[0]);
      assert x[0] in x;
      assert forall c :: c in x[1..] ==> c in x;
      ExtensionRun(p, Raw(m, x[0]), x[1..]);
      assert m.raw + x == m.raw + [x[0]] + x[1..];
    }
  }

  /** A line end after the digits: the extension, if any, is passed over. */
  lemma SizeLineRun(p: Policy, m: Machine, x: string)
    requires Consistent(m.f) && m.f.state.ReadingChunkLength? && m.f.lengthSeen && IsExtension(x)
    ensures Run(p, m, x + CRLF) == LeaveExtension(EnterExtension(m).(raw := m.raw + (x + CRLF)))
  {
    hide Step, HeaderFraming;
    var m1 := EnterExtension(m);
    var s := x + CRLF;
    assert s[0] == (if x == [] then '\r' else x[0]);
    assert HexDigit(s[0]) < 0 && IsDelimiter(s[0]);
    StepsInLength(p, m, s[0]);
    assert Run(p, m, s) == Run(p, m1, s);
    RunSplit(p, m1, x, CRLF);
    ExtensionRun(p, m1, x);
    var m2 := m1.(raw := m1.raw + x);
    TwoSteps(p, m2, '\r', '\n');
    StepsElsewhere(p, m2, '\r');
    var m3 := ExtensionStep(p, m2, '\r');
    StepsElsewhere(p, m3, '\n');
    assert m2.raw + ['\r'] + ['\n'] == m.raw + (x + CRLF);
  }

  lemma ChunkEndRun(p: Policy, m: Machine)
    requires Consistent(m.f) && m.f.state.ReadingChunkTerm? && !m.f.crAfterChunk
    ensures Run(p, m, CRLF) == m.(f := m.f.(state := ReadingChunkLength, crAfterChunk := true), raw := m.raw + CRLF)
  {
    hide Step;
    TwoSteps(p, m, '\r', '\n');
    StepsElsewhere(p, m, '\r');
    var m1 := TermStep(p, m, '\r');
    StepsElsewhere(p, m1, '\n');
    assert m.raw + ['\r'] + ['\n'] == m.raw + CRLF;
  }

  function AfterChunk(m: Machine, c: Chunk): (m': Machine) {
    m.(f := m.f.(crAfterChunk := true), raw := m.raw + ChunkText(c),
       trace := m.trace + ([OnChunkLength(|c.data|)] + Bodies(c.data)))
  }

  lemma ChunkRun(p: Policy, m: Machine, c: Chunk)
    requires Consistent(m.f) && Ready(m) && ValidChunk(c)
    ensures Run(p, m, ChunkText(c)) == AfterChunk(m, c)
  {
    hide Step, HexDigit, HeaderFraming, Run;
    var line, data := c.extension + CRLF, c.data + CRLF;
    RunSplit(p, m, c.size + line, data);
    RunSplit(p, m, c.size, line);
    AccumulatesValue(c.size);
    DigitsRun(p, m, c.size);
    var m1 := AfterDigits(m, c.size);
    SizeLineRun(p, m1, c.extension);
    var m2 := LeaveExtension(EnterExtension(m1).(raw := m1.raw + line));
    DataAndEnd(p, m2, c.data);
    assert m.raw + c.size + line + c.data + CRLF == m.raw + ChunkText(c);
    assert m.trace + [OnChunkLength(|c.data|)] + Bodies(c.data)
        == m.trace + ([OnChunkLength(|c.data|)] + Bodies(c.data));
  }

  lemma DataAndEnd(p: Policy, m: Machine, d: string)
    requires Consistent(m.f) && m.f.state.ReadingChunkData? && m.f.chunkRemaining == |d|
    ensures Run(p, m, d + CRLF) ==
            m.(f := m.f.(state := ReadingChunkLength, chunkRemaining := 0, crAfterChunk := true),
               raw := m.raw + d + CRLF, trace := m.trace + Bodies(d))
  {
    hide Step, Run;
    DataRun(p, m, d + CRLF, |d|);
    assert (d + CRLF)[..|d|] == d && (d + CRLF)[|d|..] == CRLF;
    ChunkEndRun(p, TakeData(m, d));
  }

  lemma StillReady(m: Machine, c: Chunk)
    requires Consistent(m.f) && Ready(m)
    ensures Consistent(AfterChunk(m, c).f) && Ready(AfterChunk(m, c))
  {
  }

  lemma {:induction false} ChunksRun(p: Policy, m: Machine, chunks: seq<Chunk>)
    requires Consistent(m.f) && Ready(m) && forall i :: 0 <= i < |chunks| ==> ValidChunk(chunks[i])
    ensures var m' := Run(p, m, ChunksText(chunks));
            && Ready(m') && m'.raw == m.raw + ChunksText(chunks) && m'.trailer == m.trailer
            && m'.trace == m.trace + ChunksAtoms(chunks)
    decreases |chunks|
  {
    hide Step, Run, ChunkText, ValidChunk;
    if chunks == [] {
      RunNothing(p, m);
      assert m.raw + [] == m.raw && m.trace + [] == m.trace;
    } else {
      var c, others := chunks[0], chunks[1..];
      var text, atoms := ChunksText(others), ChunksAtoms(others);
      assert ChunksText(chunks) == ChunkText(c) + text;
      assert ChunksAtoms(chunks) == [OnChunkLength(|c.data|)] + Bodies(c.data) + atoms;
      hide ChunksText, ChunksAtoms, Bodies, Ready, Consistent;
      RunSplit(p, m, ChunkText(c), text);
      ChunkRun(p, m, c);
      StillReady(m, c);
      ChunksRun(p, AfterChunk(m, c), others);
      assert m.raw + ChunkText(c) + text == m.raw + (ChunkText(c) + text);
      assert m.trace + ([OnChunkLength(|c.data|)] + Bodies(c.data)) + atoms == m.trace + ChunksAtoms(chunks);
    }
  }

  /** After the last chunk, with its line feed on record. */
  predicate Closing(m: Machine) {
    m.f.state.ReadingLastChunkTerm? && m.f.termChars == 0x0a && m.f.error.NoError? && Consistent(m.f)
  }

  lemma LastChunkRun(p: Policy, m: Machine, zero: string, x: string)
    requires Consistent(m.f) && Ready(m) && ValidSize(zero, 0) && IsExtension(x)
    ensures var m' := Run(p, m, zero + (x + CRLF));
            && Closing(m') && m'.raw == m.raw + (zero + (x + CRLF)) && m'.trailer == m.trailer
            && m'.trace == m.trace + [OnChunkLength(0)]
  {
    hide Step, HexDigit, Run;
    RunSplit(p, m, zero, x + CRLF);
    AccumulatesValue(zero);
    DigitsRun(p, m, zero);
    SizeLineRun(p, AfterDigits(m, zero), x);
    assert m.raw + zero + (x + CRLF) == m.raw + (zero + (x + CRLF));
  }

  lemma EmptyLineCloses(p: Policy, m: Machine)
    requires Closing(m)
    ensures Run(p, m, CRLF) == Done(m.(f := m.f.(termChars := 0), raw := m.raw + CRLF))
  {
    hide Step;
    TwoSteps(p, m, '\r', '\n');
    StepsElsewhere(p, m, '\r');
    assert HeaderFraming(0x0a, '\r') == (0x0a0d, NotFound);
    var m1 := LastTermStep(p, m, '\r');
    assert m1 == Raw(m, '\r').(f := m.f.(termChars := 0x0a0d));
    StepsElsewhere(p, m1, '\n');
    assert HeaderFraming(0x0a0d, '\n') == (0, FoundCrlf);
    assert m.raw + ['\r'] + ['\n'] == m.raw + CRLF;
  }

  /** Inside the trailers, at the start of a line; the line ends seen so far are on record. */
  predicate InTrailer(m: Machine) {
    m.f.state.ReadingTrailer? && m.f.termChars == 0x0d0a && m.f.error.NoError? && Consistent(m.f)
  }

  lemma {:induction false} LineRun(p: Policy, m: Machine, x: string)
    requires m.f.state.ReadingTrailer? && Consistent(m.f) && NoLineEnd(x)
    ensures Run(p, m, x) ==
            m.(f := m.f.(termChars := if x == [] then m.f.termChars else 0), trailer := m.trailer + x)
    decreases |x|
  {
    hide Step;
    if x == [] {
      assert m.trailer + [] == m.trailer;
    } else {
      StepsElsewhere(p, m, x[0]);
      assert x[0] in x;
      assert forall c :: c in x[1..] ==> c in x;
      LineRun(p, TrailerStep(m, x[0]), x[1..]);
      assert m.trailer + x == m.trailer + [x[0]] + x[1..];
    }
  }

  lemma FramingOfLineEnds()
    ensures HeaderFraming(0, '\r') == (0x0d, NotFound) && HeaderFraming(0x0d, '\n') == (0x0d0a, NotFound)
    ensures HeaderFraming(0x0d0a, '\r') == (0x0d0a0d, NotFound) && HeaderFraming(0x0d0a0d, '\n') == (0, FoundCrlf)
  {
  }

  lemma LineEndRun(p: Policy, m: Machine)
    requires m.f.state.ReadingTrailer? && Consistent(m.f)
    ensures m.f.termChars == 0 ==>
              Run(p, m, CRLF) == m.(f := m.f.(termChars := 0x0d0a), trailer := m.trailer + CRLF)
    ensures m.f.termChars == 0x0d0a ==>
              Run(p, m, CRLF) == Done(m.(f := m.f.(termChars := 0), trailer := m.trailer + CRLF))
  {
    hide Step;
    TwoSteps(p, m, '\r', '\n');
    StepsElsewhere(p, m, '\r');
    var m1 := TrailerStep(m, '\r');
    FramingOfLineEnds();
    hide HeaderFraming;
    if m.f.termChars == 0 || m.f.termChars == 0x0d0a {
      StepsElsewhere(p, m1, '\n');
    }
    assert m.trailer + ['\r'] + ['\n'] == m.trailer + CRLF;
  }

  lemma {:induction false} LinesRun(p: Policy, m: Machine, lines: seq<string>)
    requires InTrailer(m) && forall i :: 0 <= i < |lines| ==> ValidLine(lines[i])
    ensures Run(p, m, LinesText(lines) + CRLF) ==
            Done(m.(f := m.f.(termChars := 0), trailer := m.trailer + (LinesText(lines) + CRLF)))
    decreases |lines|
  {
    hide Step, Run;
    if lines == [] {
      LineEndRun(p, m);
      assert LinesText(lines) + CRLF == CRLF;
    } else {
      var line, others := lines[0], lines[1..];
      var rest := LinesText(others) + CRLF;
      assert LinesText(lines) + CRLF == line + CRLF + rest;
      RunSplit(p, m, line + CRLF, rest);
      RunSplit(p, m, line, CRLF);
      LineRun(p, m, line);
      var m1 := m.(f := m.f.(termChars := 0), trailer := m.trailer + line);
      LineEndRun(p, m1);
      LinesRun(p, m1.(f := m1.f.(termChars := 0x0d0a), trailer := m1.trailer + CRLF), others);
      assert m.trailer + line + CRLF + rest == m.trailer + (LinesText(lines) + CRLF);
    }
  }

  /** The first byte of a trailer line opens the trailers. */
  lemma TrailersRun(p: Policy, m: Machine, lines: seq<string>)
    requires Closing(m) && lines != [] && forall i :: 0 <= i < |lines| ==> ValidLine(lines[i])
    ensures Run(p, m, LinesText(lines) + CRLF) ==
            Done(m.(f := m.f.(termChars := 0), trailer := m.trailer + (LinesText(lines) + CRLF)))
  {
    hide Step, Run;
    var s := LinesText(lines) + CRLF;
    var m1 := m.(f := m.f.(state := ReadingTrailer, termChars := 0x0d0a));
    var m2 := m.(f := m.f.(state := ReadingTrailer, termChars := 0));
    assert s[0] == lines[0][0] && lines[0][0] in lines[0];
    FirstStep(p, m, s);
    FirstStep(p, m1, s);
    StepsElsewhere(p, m, s[0]);
    StepsElsewhere(p, m1, s[0]);
    assert LastTermStep(p, m, s[0]) == TrailerStep(m2, s[0]) == TrailerStep(m1, s[0]);
    LinesRun(p, m1, lines);
  }

  lemma FirstStep(p: Policy, m: Machine, s: string)
    requires Consistent(m.f) && s != []
    ensures Run(p, m, s) == Run(p, Step(p, m, s[0]), s[1..])
  {
    hide Step;
  }

  lemma BodyStartRun(p: Policy, b: Body)
    requires ValidBody(b)
    ensures var m := Run(p, Start([], [], []), BodyStart(b));
            && Closing(m) && m.raw == BodyStart(b) && m.trailer == []
            && m.trace == ChunksAtoms(b.chunks) + [OnChunkLength(0)]
  {
    hide Step, Run, ChunksText, ValidChunk, HexDigit, ChunksAtoms;
    var m0 := Start([], [], []);
    var s1, s2 := ChunksText(b.chunks), b.zero + (b.extension + CRLF);
    RunSplit(p, m0, s1, s2);
    ChunksRun(p, m0, b.chunks);
    LastChunkRun(p, Run(p, m0, s1), b.zero, b.extension);
  }

  lemma BodyEndRun(p: Policy, m: Machine, b: Body)
    requires Closing(m) && m.trailer == [] && ValidBody(b)
    ensures var m' := Run(p, m, BodyEnd(b));
            && m'.f.state.MessageFullyRead? && m'.f.error.NoError? && Consistent(m'.f)
            && m'.trace == m.trace + [OnMessageDone]
            && m'.raw + m'.trailer == m.raw + BodyEnd(b)
            && m'.trailer == (if b.trailers == [] then [] else BodyEnd(b))
  {
    assert LinesText([]) + CRLF == CRLF;
    hide Step, Run, LinesText;
    if b.trailers == [] {
      EmptyLineCloses(p, m);
      assert m.raw + CRLF + [] == m.raw + CRLF;
    } else {
      TrailersRun(p, m, b.trailers);
      assert [] + BodyEnd(b) == BodyEnd(b);
    }
  }

  /** A chunked body is decoded correctly whatever follows it and under every policy: its data in
      order, its chunk lengths, one end of message and no error or warning; everything up to the last
      chunk is raw body, the trailer section is trailer, and what follows is left alone. */
  lemma ChunkedBodyIsDecoded(p: Policy, b: Body, junk: string)
    requires ValidBody(b)
    ensures var m := Run(p, Start([], [], []), BodyText(b) + junk);
            && m.f.state.MessageFullyRead? && m.f.error.NoError?
            && m.trace == ChunksAtoms(b.chunks) + [OnChunkLength(0), OnMessageDone]
            && m.raw + m.trailer == BodyText(b)
            && m.trailer == (if b.trailers == [] then [] else BodyEnd(b))
  {
    hide Step, Run, ChunksAtoms, BodyStart, BodyEnd, ValidBody;
    var m0 := Start([], [], []);
    RunSplit(p, m0, BodyText(b), junk);
    RunSplit(p, m0, BodyStart(b), BodyEnd(b));
    BodyStartRun(p, b);
    var m2 := Run(p, m0, BodyStart(b));
    BodyEndRun(p, m2, b);
    var m3 := Run(p, m2, BodyEnd(b));
    RunTerminal(p, m3, junk);
    assert ChunksAtoms(b.chunks) + [OnChunkLength(0)] + [OnMessageDone]
           == ChunksAtoms(b.chunks) + [OnChunkLength(0), OnMessageDone];
  }
}
