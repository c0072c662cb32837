/** What the framer makes of any body text, well formed or not, said of the text alone. */
module ChunkedTexts {
  import opened ChunkedBody
  import opened BalsaFrame
  import opened ChunkedCoding

  // ---------------------------------------------------------------------------------------------
  // The size of a chunk

  /** The value of a hexadecimal digit is its place among the sixteen, in either case. */
  lemma HexDigitIs(c: char, d: nat)
    requires d < 16
    ensures HexDigit(c) == d <==> c == "0123456789abcdef"[d] || c == "0123456789ABCDEF"[d]
  {
  }

  /** In front of a chunk, whether or not there were warnings before. */
  predicate InFront(m: Machine) {
    && Consistent(m.f) && m.f.state.ReadingChunkLength? && m.f.chunkRemaining == 0 && !m.f.lengthSeen
    && m.f.termChars == 0
  }

  predicate Failed(m: Machine, code: ErrorCode, trace: seq<Atom>) {
    m.f.state.ErrorState? && m.f.error == code && m.trace == trace + [OnError(code)]
  }

  /** What comes behind the digits must be a blank, a semicolon or a line end, and there must be digits. */
  lemma SizeEndsExactly(p: Policy, m: Machine, size: string, c: char)
    requires InFront(m) && AllHex(size) && HexValue(size) <= SIZE_MAX && HexDigit(c) < 0
    ensures var m' := Run(p, m, size + [c]);
            if size != [] && (c == '\t' || c == '\n' || c == '\r' || c == ' ' || c == ';')
            then !m'.f.state.ErrorState? || m'.f.error == InvalidChunkExtension
            else Failed(m', InvalidChunkLength, m.trace)
  {
    hide Step, HexDigit, Run, HeaderFraming;
    RunSplit(p, m, size, [c]);
    AccumulatesValue(size);
    DigitsRun(p, m, size);
    var m1 := AfterDigits(m, size);
    OneStep(p, m1, c);
    StepsInLength(p, m1, c);
  }

  lemma OneStep(p: Policy, m: Machine, c: char)
    requires Consistent(m.f)
    ensures Run(p, m, [c]) == Step(p, m, c)
  {
    hide Step;
    assert [c][1..] == [];
  }

  // ---------------------------------------------------------------------------------------------
  // The rest of the size line

  /** A carriage return that something else than the line feed follows. */
  predicate LoneCr(x: string) {
    exists i :: 0 <= i < |x| - 1 && x[i] == '\r'
  }

  predicate EndsWithCr(x: string) {
    x != [] && x[|x| - 1] == '\r'
  }

  /** Whether the policy objects to a line, without its line feed. */
  predicate LineRefused(p: Policy, x: string) {
    (p.disallowLoneCr && LoneCr(x)) || (p.disallowLoneLf && !EndsWithCr(x))
  }

  function WithCr(lastCr: bool, x: string): string {
    if lastCr then ['\r'] + x else x
  }

  lemma WithCrCons(lastCr: bool, x: string)
    requires x != []
    ensures LoneCr(WithCr(lastCr, x)) <==> lastCr || LoneCr(WithCr(x[0] == '\r', x[1..]))
    ensures EndsWithCr(WithCr(lastCr, x)) <==> EndsWithCr(WithCr(x[0] == '\r', x[1..]))
  {
    var a, b := WithCr(lastCr, x), WithCr(x[0] == '\r', x[1..]);
    if x[0] == '\r' {
      assert b == x;
    } else {
      assert b == x[1..];
    }
    if lastCr {
      assert a[0] == '\r' && |a| > 1;
    }
    if LoneCr(a) && !lastCr {
      var i :| 0 <= i < |a| - 1 && a[i] == '\r';
      assert x[0] == '\r' ==> b[i] == '\r';
      assert x[0] != '\r' ==> b[i - 1] == '\r';
    }
    if LoneCr(b) {
      var i :| 0 <= i < |b| - 1 && b[i] == '\r';
      var k := if x[0] == '\r' then i else i + 1;
      assert x[k] == '\r' && a[if lastCr then k + 1 else k] == '\r';
    }
  }

  lemma {:induction false} ExtensionExactly(p: Policy, m: Machine, x: string)
    requires Consistent(m.f) && m.f.state.ReadingChunkExtension? && '\n' !in x
    ensures var y, m' := WithCr(m.f.lastCr, x), Run(p, m, x);
            if p.disallowLoneCr && LoneCr(y) then Failed(m', InvalidChunkExtension, m.trace)
            else m' == m.(raw := m.raw + x, f := m.f.(lastCr := EndsWithCr(y)))
    decreases |x|
  {
    hide Step, LoneCr, WithCr, EndsWithCr;
    if x == [] {
      assert m.raw + [] == m.raw;
      NoLoneCr(m.f.lastCr);
    } else {
      assert x[0] in x && forall c :: c in x[1..] ==> c in x;
      StepsElsewhere(p, m, x[0]);
      WithCrCons(m.f.lastCr, x);
      var m1 := Step(p, m, x[0]);
      if m1.f.state.ErrorState? {
        RunTerminal(p, m1, x[1..]);
      } else {
        ExtensionExactly(p, m1, x[1..]);
        assert m.raw + x == m.raw + [x[0]] + x[1..];
      }
    }
  }

  lemma NoLoneCr(lastCr: bool)
    ensures !LoneCr(WithCr(lastCr, [])) && EndsWithCr(WithCr(lastCr, [])) == lastCr
  {
  }

  /** The framer behind a size line. */
  function AfterLine(m: Machine, text: string, n: nat): Machine {
    m.(f := if n > 0 then m.f.(state := ReadingChunkData, chunkRemaining := n, lastCr := false)
            else m.f.(state := ReadingLastChunkTerm, lastCr := false, termChars := 0x0a),
       raw := m.raw + text, trace := m.trace + [OnChunkLength(n)])
  }

  predicate IsLine(x: string) {
    '\n' !in x && (x != [] ==> x[0] == '\t' || x[0] == '\r' || x[0] == ' ' || x[0] == ';')
  }

  lemma LineFeedStep(p: Policy, m: Machine)
    requires Consistent(m.f) && m.f.state.ReadingChunkExtension?
    ensures Step(p, m, '\n')
         == if p.disallowLoneLf && !m.f.lastCr then Fail(m, InvalidChunkExtension) else LeaveExtension(Raw(m, '\n'))
  {
    hide HeaderFraming;
    StepsElsewhere(p, m, '\n');
  }

  lemma LineFeedFraming()
    ensures HeaderFraming(0, '\n').0 == 0x0a
  {
  }

  /** The size line of a chunk is refused if and only if the policy objects to its line ends; otherwise the
      chunk is announced, and its data or the end of the message come next. */
  lemma SizeLineExactly(p: Policy, m: Machine, size: string, x: string, n: nat)
    requires InFront(m) && ValidSize(size, n) && IsLine(x)
    ensures var m' := Run(p, m, size + (x + "\n"));
            if LineRefused(p, x) then Failed(m', InvalidChunkExtension, m.trace + [OnChunkLength(n)])
            else m' == AfterLine(m, size + (x + "\n"), n)
  {
    hide Step, HexDigit, Run, HeaderFraming, LoneCr, EndsWithCr;
    var s := x + "\n";
    RunSplit(p, m, size, s);
    AccumulatesValue(size);
    DigitsRun(p, m, size);
    var m1 := AfterDigits(m, size);
    var m2 := EnterExtension(m1);
    assert s[0] == (if x == [] then '\n' else x[0]);
    DelimitersAreNotDigits(s[0]);
    StepsInLength(p, m1, s[0]);
    StepsElsewhere(p, m2, s[0]);
    FirstStep(p, m1, s);
    FirstStep(p, m2, s);
    assert Run(p, m1, s) == Run(p, m2, s);
    RunSplit(p, m2, x, "\n");
    ExtensionExactly(p, m2, x);
    assert WithCr(false, x) == x;
    var m3 := Run(p, m2, x);
    OneStep(p, m3, '\n');
    if m3.f.state.ErrorState? {
      RunTerminal(p, m3, "\n");
    } else {
      LineFeedStep(p, m3);
      LineFeedFraming();
      assert m.raw + size + x + ['\n'] == m.raw + (size + (x + "\n"));
    }
  }

  lemma DelimitersAreNotDigits(c: char)
    requires c == '\t' || c == '\n' || c == '\r' || c == ' ' || c == ';'
    ensures HexDigit(c) < 0 && IsDelimiter(c)
  {
  }

  // ---------------------------------------------------------------------------------------------
  // Between the data of a chunk and the next chunk

  /** All bytes up to the line feed are stray but one carriage return; without one, so is the line feed. */
  function Strays(x: string): nat {
    if '\r' in x then |x| - 1 else |x| + 1
  }

  function Warnings(n: nat): (t: seq<Atom>)
    ensures |t| == n && forall i :: 0 <= i < n ==> t[i] == OnWarning(StrayDataAfterChunk)
  {
    seq(n, _ => OnWarning(StrayDataAfterChunk))
  }

  lemma WarningsAdd(a: nat, b: nat)
    ensures Warnings(a) + Warnings(b) == Warnings(a + b)
  {
  }

  /** How many of the bytes are stray, given whether a carriage return came before. */
  function StraysSoFar(cr: bool, x: string): nat {
    if !cr && '\r' in x then |x| - 1 else |x|
  }

  function WithWarnings(m: Machine, n: nat): Machine {
    m.(f := m.f.(error := if n > 0 then StrayDataAfterChunk else m.f.error), trace := m.trace + Warnings(n))
  }

  lemma WithWarningsTwice(m: Machine, a: nat, b: nat)
    ensures WithWarnings(WithWarnings(m, a), b) == WithWarnings(m, a + b)
  {
    WarningsAdd(a, b);
    assert m.trace + Warnings(a) + Warnings(b) == m.trace + (Warnings(a) + Warnings(b));
  }

  predicate InTerm(m: Machine) {
    Consistent(m.f) && m.f.state.ReadingChunkTerm?
  }

  /** The framer behind bytes that are no line feed. */
  function AfterTerm(m: Machine, x: string): Machine {
    WithWarnings(m.(raw := m.raw + x, f := m.f.(crAfterChunk := m.f.crAfterChunk || '\r' in x)),
                 StraysSoFar(m.f.crAfterChunk, x))
  }

  lemma AfterTermCons(m: Machine, x: string)
    requires x != []
    ensures AfterTerm(m, x) == AfterTerm(AfterTerm(m, [x[0]]), x[1..])
    ensures StraysSoFar(m.f.crAfterChunk, x)
         == StraysSoFar(m.f.crAfterChunk, [x[0]]) + StraysSoFar(AfterTerm(m, [x[0]]).f.crAfterChunk, x[1..])
  {
    var cr, c, rest := m.f.crAfterChunk, x[0], x[1..];
    assert x == [c] + rest;
    var a, b := StraysSoFar(cr, [c]), StraysSoFar(cr || c == '\r', rest);
    assert StraysSoFar(cr, x) == a + b;
    hide StraysSoFar;
    WarningsAdd(a, b);
    assert m.trace + Warnings(a) + Warnings(b) == m.trace + (Warnings(a) + Warnings(b));
    assert m.raw + x == m.raw + [c] + rest;
  }

  lemma AfterTermKeeps(m: Machine, x: string)
    requires InTerm(m)
    ensures InTerm(AfterTerm(m, x))
    ensures StraysSoFar(m.f.crAfterChunk, x) == 0 ==> AfterTerm(m, x).trace == m.trace
    ensures AfterTerm(m, []) == m && StraysSoFar(m.f.crAfterChunk, []) == 0
  {
    assert m.raw + [] == m.raw && m.trace + Warnings(0) == m.trace;
  }

  lemma TermByteIs(p: Policy, m: Machine, c: char)
    requires InTerm(m) && c != '\n'
    ensures if StraysSoFar(m.f.crAfterChunk, [c]) > 0 && p.disallowStrayData
            then Failed(Step(p, m, c), StrayDataAfterChunk, m.trace)
            else Step(p, m, c) == AfterTerm(m, [c])
  {
    StepsElsewhere(p, m, c);
    hide Step;
    assert m.trace + Warnings(0) == m.trace;
    assert Warnings(1) == [OnWarning(StrayDataAfterChunk)];
  }

  lemma {:induction false} TermRun(p: Policy, m: Machine, x: string)
    requires InTerm(m) && '\n' !in x
    ensures if StraysSoFar(m.f.crAfterChunk, x) > 0 && p.disallowStrayData
            then Failed(Run(p, m, x), StrayDataAfterChunk, m.trace)
            else Run(p, m, x) == AfterTerm(m, x)
    decreases |x|
  {
    hide Step, AfterTerm, StraysSoFar;
    AfterTermKeeps(m, x);
    if x != [] {
      var c, rest := x[0], x[1..];
      assert c in x && forall d :: d in rest ==> d in x;
      TermByteIs(p, m, c);
      AfterTermCons(m, x);
      AfterTermKeeps(m, [c]);
      if StraysSoFar(m.f.crAfterChunk, [c]) > 0 && p.disallowStrayData {
        RunTerminal(p, Step(p, m, c), rest);
      } else {
        TermRun(p, AfterTerm(m, [c]), rest);
      }
    }
  }

  lemma TermLineFeed(p: Policy, m: Machine)
    requires InTerm(m)
    ensures if !m.f.crAfterChunk && p.disallowStrayData then Failed(Step(p, m, '\n'), StrayDataAfterChunk, m.trace)
            else Step(p, m, '\n') == WithWarnings(Raw(m, '\n').(f := m.f.(state := ReadingChunkLength)),
                                                  if m.f.crAfterChunk then 0 else 1)
  {
    StepsElsewhere(p, m, '\n');
    hide Step;
    assert m.trace + Warnings(0) == m.trace;
    assert Warnings(1) == [OnWarning(StrayDataAfterChunk)];
  }

  /** The framer behind the line feed. */
  function AfterEnd(m: Machine, x: string): Machine {
    WithWarnings(m.(raw := m.raw + (x + "\n"), f := m.f.(state := ReadingChunkLength, crAfterChunk := '\r' in x)),
                 Strays(x))
  }

  /** Behind the data of a chunk, up to the line feed: an error if and only if the policy disallows what is not
      exactly one carriage return; otherwise one warning for each stray byte. */
  lemma TermExactly(p: Policy, m: Machine, x: string)
    requires InTerm(m) && !m.f.crAfterChunk && '\n' !in x
    ensures if p.disallowStrayData && x != "\r" then Failed(Run(p, m, x + "\n"), StrayDataAfterChunk, m.trace)
            else Run(p, m, x + "\n") == AfterEnd(m, x)
  {
    hide Step, Run;
    RunSplit(p, m, x, "\n");
    TermRun(p, m, x);
    OnlyCr(x);
    var n := StraysSoFar(false, x);
    if n > 0 && p.disallowStrayData {
      RunTerminal(p, Run(p, m, x), "\n");
    } else {
      var m1 := AfterTerm(m, x);
      AfterTermKeeps(m, x);
      OneStep(p, m1, '\n');
      TermLineFeed(p, m1);
      var k := if '\r' in x then 0 else 1;
      WarningsAdd(n, k);
      assert m.trace + Warnings(n) + Warnings(k) == m.trace + (Warnings(n) + Warnings(k));
      assert m.raw + x + ['\n'] == m.raw + (x + "\n");
    }
  }

  lemma OnlyCr(x: string)
    ensures x == "\r" <==> '\r' in x && StraysSoFar(false, x) == 0
    ensures Strays(x) == StraysSoFar(false, x) + if '\r' in x then 0 else 1
  {
  }

  // ---------------------------------------------------------------------------------------------
  // Whole chunks

  /** A chunk with any line behind its size, and any line behind its data. */
  datatype LooseChunk = LooseChunk(size: string, line: string, data: string, end: string)

  predicate ValidLoose(c: LooseChunk) {
    ValidSize(c.size, |c.data|) && c.data != [] && IsLine(c.line) && '\n' !in c.end
  }

  function LooseText(c: LooseChunk): string {
    c.size + (c.line + "\n") + (c.data + (c.end + "\n"))
  }

  function LooseAtoms(c: LooseChunk): seq<Atom> {
    [OnChunkLength(|c.data|)] + Bodies(c.data)
  }

  predicate StrayRefused(p: Policy, end: string) {
    p.disallowStrayData && end != "\r"
  }

  function AfterLoose(m: Machine, c: LooseChunk): Machine {
    m.(f := m.f.(lastCr := false, crAfterChunk := '\r' in c.end,
                 error := if c.end == "\r" then m.f.error else StrayDataAfterChunk),
       raw := m.raw + LooseText(c), trace := m.trace + (LooseAtoms(c) + Warnings(Strays(c.end))))
  }

  lemma DataAndTerm(p: Policy, m: Machine, data: string, end: string)
    requires Consistent(m.f) && m.f.state.ReadingChunkData? && m.f.chunkRemaining == |data| && '\n' !in end
    ensures var m' := Run(p, m, data + (end + "\n"));
            if StrayRefused(p, end) then Failed(m', StrayDataAfterChunk, m.trace + Bodies(data))
            else m' == m.(f := m.f.(state := ReadingChunkLength, chunkRemaining := 0, crAfterChunk := '\r' in end,
                                    error := if end == "\r" then m.f.error else StrayDataAfterChunk),
                          raw := m.raw + data + (end + "\n"),
                          trace := m.trace + Bodies(data) + Warnings(Strays(end)))
  {
    hide Step, Run;
    var s := data + (end + "\n");
    DataRun(p, m, s, |data|);
    assert s[..|data|] == data && s[|data|..] == end + "\n";
    TermExactly(p, TakeData(m, data), end);
    StraysOfCr(end);
  }

  lemma StraysOfCr(x: string)
    ensures Strays(x) == 0 <==> x == "\r"
  {
    OnlyCr(x);
  }

  /** Under every policy, any such chunk is an error if and only if the policy refuses one of its lines, and the
      error says which; otherwise it is announced and handed on, with one warning for each stray byte, and the
      framer is in front of the next chunk. */
  lemma LooseChunkExactly(p: Policy, m: Machine, c: LooseChunk)
    requires InFront(m) && ValidLoose(c)
    ensures var m' := Run(p, m, LooseText(c));
            if LineRefused(p, c.line) then Failed(m', InvalidChunkExtension, m.trace + [OnChunkLength(|c.data|)])
            else if StrayRefused(p, c.end) then Failed(m', StrayDataAfterChunk, m.trace + LooseAtoms(c))
            else m' == AfterLoose(m, c) && InFront(m')
  {
    hide Step, Run, HexDigit, HeaderFraming, LineRefused, IsLine, Bodies, Warnings, Strays;
    var line, data := c.size + (c.line + "\n"), c.data + (c.end + "\n");
    RunSplit(p, m, line, data);
    SizeLineExactly(p, m, c.size, c.line, |c.data|);
    if LineRefused(p, c.line) {
      RunTerminal(p, Run(p, m, line), data);
    } else {
      var m1 := AfterLine(m, line, |c.data|);
      DataAndTerm(p, m1, c.data, c.end);
      assert m.trace + [OnChunkLength(|c.data|)] + Bodies(c.data) == m.trace + LooseAtoms(c);
      assert m.trace + LooseAtoms(c) + Warnings(Strays(c.end)) == m.trace + (LooseAtoms(c) + Warnings(Strays(c.end)));
      assert m.raw + line + c.data + (c.end + "\n") == m.raw + (line + data);
    }
  }

  /** A chunk as a sender should write it, with anything but a line feed behind its data. */
  lemma StrayDataExactly(p: Policy, m: Machine, c: Chunk, x: string)
    requires InFront(m) && m.f.error.NoError? && ValidChunk(c) && '\n' !in x
    ensures var text := c.size + (c.extension + CRLF) + (c.data + (x + "\n"));
            var m', trace := Run(p, m, text), m.trace + ([OnChunkLength(|c.data|)] + Bodies(c.data));
            if p.disallowStrayData && x != "\r" then Failed(m', StrayDataAfterChunk, trace)
            else
              && InFront(m') && m'.raw == m.raw + text && m'.trailer == m.trailer
              && m'.trace == trace + Warnings(if '\r' in x then |x| - 1 else |x| + 1)
              && m'.f.error == if x == "\r" then NoError else StrayDataAfterChunk
  {
    hide Step, Run, HexDigit, HeaderFraming, Warnings;
    var loose := LooseChunk(c.size, c.extension + "\r", c.data, x);
    ExtensionIsLine(p, c.extension);
    assert c.extension + "\r" + "\n" == c.extension + CRLF;
    LooseChunkExactly(p, m, loose);
    assert m.trace + (LooseAtoms(loose) + Warnings(Strays(x))) == m.trace + LooseAtoms(loose) + Warnings(Strays(x));
  }

  lemma ExtensionIsLine(p: Policy, x: string)
    requires IsExtension(x)
    ensures IsLine(x + "\r") && !LineRefused(p, x + "\r")
  {
    var y := x + "\r";
    assert y[|y| - 1] == '\r';
    assert forall i :: 0 <= i < |y| - 1 ==> y[i] == x[i] && x[i] in x;
  }

  function LooseTexts(cs: seq<LooseChunk>): string {
    if cs == [] then [] else LooseText(cs[0]) + LooseTexts(cs[1..])
  }

  predicate Refused(p: Policy, c: LooseChunk) {
    LineRefused(p, c.line) || StrayRefused(p, c.end)
  }

  /** Everything that is told about a chunk that is not refused. */
  function Told(c: LooseChunk): seq<Atom> {
    LooseAtoms(c) + Warnings(Strays(c.end))
  }

  function AllTold(cs: seq<LooseChunk>): seq<Atom> {
    if cs == [] then [] else Told(cs[0]) + AllTold(cs[1..])
  }

  lemma {:induction false} LooseChunksRun(p: Policy, m: Machine, cs: seq<LooseChunk>)
    requires InFront(m) && forall i :: 0 <= i < |cs| ==> ValidLoose(cs[i]) && !Refused(p, cs[i])
    ensures var m' := Run(p, m, LooseTexts(cs));
            InFront(m') && m'.raw == m.raw + LooseTexts(cs) && m'.trace == m.trace + AllTold(cs)
    decreases |cs|
  {
    hide Step, Run, LooseText, Told, ValidLoose, LineRefused, StrayRefused, InFront;
    FrontIsConsistent(m);
    if cs == [] {
      RunNothing(p, m);
      assert m.raw + [] == m.raw && m.trace + [] == m.trace;
    } else {
      var c, others := cs[0], cs[1..];
      var text, told := LooseTexts(others), AllTold(others);
      assert LooseTexts(cs) == LooseText(c) + text && AllTold(cs) == Told(c) + told;
      hide LooseTexts, AllTold;
      RunSplit(p, m, LooseText(c), text);
      LooseChunkExactly(p, m, c);
      AfterLooseTells(m, c);
      LooseChunksRun(p, AfterLoose(m, c), others);
      assert m.raw + LooseText(c) + text == m.raw + (LooseText(c) + text);
      assert m.trace + Told(c) + told == m.trace + (Told(c) + told);
    }
  }

  lemma {:induction false} LooseTextsAt(cs: seq<LooseChunk>, k: nat)
    requires k < |cs|
    ensures LooseTexts(cs) == LooseTexts(cs[..k]) + (LooseText(cs[k]) + LooseTexts(cs[k + 1..]))
    decreases |cs|
  {
    hide LooseText;
    if k == 0 {
      assert cs[..0] == [];
    } else {
      LooseTextsAt(cs[1..], k - 1);
      assert cs[..k][1..] == cs[1..][..k - 1] && cs[1..][k..] == cs[k + 1..];
    }
  }

  /** Any number of such chunks: the framer stops with an error at the first that is refused, and has told
      everything about those before it; nothing that comes behind makes a difference.  If none is refused, it
      has told everything and is in front of the next chunk. */
  lemma LooseChunksExactly(p: Policy, m: Machine, cs: seq<LooseChunk>, k: nat, rest: string)
    requires InFront(m) && forall i :: 0 <= i < |cs| ==> ValidLoose(cs[i])
    requires k <= |cs| && (forall i :: 0 <= i < k ==> !Refused(p, cs[i])) && (k < |cs| ==> Refused(p, cs[k]))
    ensures var m', before := Run(p, m, LooseTexts(cs) + rest), m.trace + AllTold(cs[..k]);
            if k == |cs| then
              var m1 := Run(p, m, LooseTexts(cs));
              InFront(m1) && m1.raw == m.raw + LooseTexts(cs) && m1.trace == before && m' == Run(p, m1, rest)
            else if LineRefused(p, cs[k].line)
            then Failed(m', InvalidChunkExtension, before + [OnChunkLength(|cs[k].data|)])
            else Failed(m', StrayDataAfterChunk, before + LooseAtoms(cs[k]))
  {
    hide Step, Run, LooseText, LooseTexts, AllTold, LooseAtoms, ValidLoose, LineRefused, StrayRefused, InFront;
    FrontIsConsistent(m);
    RunSplit(p, m, LooseTexts(cs), rest);
    LooseChunksRun(p, m, cs[..k]);
    assert cs[..|cs|] == cs;
    if k < |cs| {
      var m1 := Run(p, m, LooseTexts(cs[..k]));
      var tail := LooseTexts(cs[k + 1..]) + rest;
      LooseTextsAt(cs, k);
      assert LooseTexts(cs) + rest == LooseTexts(cs[..k]) + (LooseText(cs[k]) + tail);
      RunSplit(p, m, LooseTexts(cs[..k]), LooseText(cs[k]) + tail);
      FrontIsConsistent(m1);
      RunSplit(p, m1, LooseText(cs[k]), tail);
      LooseChunkExactly(p, m1, cs[k]);
      RunTerminal(p, Run(p, m1, LooseText(cs[k])), tail);
    }
  }

  lemma FrontIsConsistent(m: Machine)
    requires InFront(m)
    ensures Consistent(m.f)
  {
  }

  lemma AfterLooseTells(m: Machine, c: LooseChunk)
    ensures AfterLoose(m, c).trace == m.trace + Told(c) && AfterLoose(m, c).raw == m.raw + LooseText(c)
  {
  }
}
