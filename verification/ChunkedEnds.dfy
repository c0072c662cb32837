/** Where a chunked body ends, and where a body of another kind does, said of the text alone. */
module ChunkedEnds {
  import Bytes
  import opened ChunkedBody
  import opened BalsaFrame
  import opened ChunkedCoding
  import opened ChunkedTexts

  // ---------------------------------------------------------------------------------------------
  // An empty line

  predicate IsLineEnd(c: char) {
    c == '\r' || c == '\n'
  }

  /** The text ends with an empty line, whose end is a carriage return and a line feed, or a line feed. */
  predicate EndsInCrlf(s: string) {
    |s| >= 3 && s[|s| - 3] == '\n' && s[|s| - 2] == '\r' && s[|s| - 1] == '\n'
  }

  predicate EndsInLf(s: string) {
    |s| >= 2 && s[|s| - 2] == '\n' && s[|s| - 1] == '\n'
  }

  predicate EndsInEmptyLine(s: string) {
    EndsInCrlf(s) || EndsInLf(s)
  }

  function Code(c: char): nat {
    if IsLineEnd(c) then c as nat else 0
  }

  /** The last two bytes, as far as they are line ends without anything between. */
  predicate Tracks(term: nat, s: string) {
    && term % 0x100 == (if s == [] then 0 else Code(s[|s| - 1]))
    && term / 0x100 % 0x100 == (if |s| < 2 || !IsLineEnd(s[|s| - 1]) then 0 else Code(s[|s| - 2]))
  }

  lemma SplitByte(x: nat, lo: nat)
    requires lo < 0x100
    ensures (x * 0x100 + lo) % 0x100 == lo && (x * 0x100 + lo) / 0x100 == x
  {
  }

  lemma Remainder(q: nat, x: nat, d: nat)
    requires x < d
    ensures (q * d + x) % d == x
  {
    Bytes.QuotientUnique(q * d + x, d, q, x);
  }

  lemma TwoDivisions(x: nat)
    ensures x / 0x1_0000 == x / 0x100 / 0x100
  {
  }

  /** The three low bytes of a number, and what is above them. */
  lemma LowBytes(t: nat) returns (z: nat, a: nat, b: nat, d: nat)
    ensures a < 0x100 && b < 0x100 && d < 0x100
    ensures t == ((z * 0x100 + a) * 0x100 + b) * 0x100 + d
    ensures t % 0x100 == d && t / 0x100 % 0x100 == b && t / 0x1_0000 % 0x100 == a
  {
    var x := t / 0x100;
    var y := x / 0x100;
    d, b, a, z := t % 0x100, x % 0x100, y % 0x100, y / 0x100;
    TwoDivisions(t);
  }

  lemma ShiftedBytes(term: nat, c: char)
    requires IsLineEnd(c)
    ensures var t := Shifted(term, c);
            && t % 0x100 == c as nat && t / 0x100 % 0x100 == term % 0x100
            && t / 0x1_0000 % 0x100 == term / 0x100 % 0x100
  {
    var z, a, b, d := LowBytes(term);
    var w := (a * 0x100 + b) * 0x100 + d;
    var x := w * 0x100 + c as nat;
    Remainder(z, x, 0x1_0000_0000);
    assert term * 0x100 + c as int == z * 0x1_0000_0000 + x;
    SplitByte(w, c as nat);
    SplitByte(a * 0x100 + b, d);
    SplitByte(a, b);
    TwoDivisions(x);
  }

  lemma ThreeBytes(t: nat)
    ensures t % 0x100_0000 == t / 0x1_0000 % 0x100 * 0x1_0000 + t / 0x100 % 0x100 * 0x100 + t % 0x100
    ensures t % 0x1_0000 == t / 0x100 % 0x100 * 0x100 + t % 0x100
  {
    var z, a, b, d := LowBytes(t);
    Remainder(z, a * 0x1_0000 + b * 0x100 + d, 0x100_0000);
    Remainder(z * 0x100 + a, b * 0x100 + d, 0x1_0000);
  }

  lemma LastBytes(s: string, c: char)
    ensures var t := s + [c];
            && t[|t| - 1] == c && (|t| >= 2 ==> t[|t| - 2] == s[|s| - 1]) && (|t| >= 3 ==> t[|t| - 3] == s[|s| - 2])
    ensures EndsInLf(s + [c]) <==> c == '\n' && s != [] && s[|s| - 1] == '\n'
    ensures EndsInCrlf(s + [c]) <==> c == '\n' && |s| >= 2 && s[|s| - 1] == '\r' && s[|s| - 2] == '\n'
  {
  }

  /** The shifted number finds an empty line if and only if the text ends in one, and which it is. */
  lemma FramingExactly(term: nat, s: string, c: char)
    requires Tracks(term, s)
    ensures var (term', found) := HeaderFraming(term, c);
            && (found.FoundCrlf? <==> EndsInCrlf(s + [c])) && (found.FoundLf? <==> EndsInLf(s + [c]))
            && (found.NotFound? ==> Tracks(term', s + [c]) && (term' == 0 <==> !IsLineEnd(c)))
  {
    hide EndsInCrlf, EndsInLf;
    LastBytes(s, c);
    if IsLineEnd(c) {
      ShiftedBytes(term, c);
      ThreeBytes(Shifted(term, c));
      hide Shifted;
    }
  }

  // ---------------------------------------------------------------------------------------------
  // Trailers

  /** No beginning of `t` ends in an empty line, if it comes behind `s`. */
  predicate NotYet(s: string, t: string) {
    forall k :: 0 < k < |t| ==> !EndsInEmptyLine(s + t[..k])
  }

  lemma NotYetRest(s: string, t: string)
    requires t != [] && NotYet(s, t)
    ensures NotYet(s + [t[0]], t[1..]) && (|t| > 1 ==> !EndsInEmptyLine(s + [t[0]]))
    ensures s + t == s + [t[0]] + t[1..]
  {
    hide EndsInEmptyLine;
    forall k | 0 < k < |t| - 1 ensures !EndsInEmptyLine(s + [t[0]] + t[1..][..k]) {
      assert s + [t[0]] + t[1..][..k] == s + t[..k + 1];
    }
    if |t| > 1 {
      assert t[..1] == [t[0]];
    }
  }

  lemma TrailerByte(p: Policy, m: Machine, s: string, c: char)
    requires Consistent(m.f) && m.f.state.ReadingTrailer? && Tracks(m.f.termChars, s)
    ensures var m' := Step(p, m, c);
            && m'.trailer == m.trailer + [c] && m'.raw == m.raw && m'.f.error == m.f.error
            && if EndsInEmptyLine(s + [c]) then m'.f.state.MessageFullyRead? && m'.trace == m.trace + [OnMessageDone]
               else m'.f.state.ReadingTrailer? && m'.trace == m.trace && Tracks(m'.f.termChars, s + [c])
  {
    FramingExactly(m.f.termChars, s, c);
    StepsElsewhere(p, m, c);
    hide Step, HeaderFraming, Tracks, EndsInCrlf, EndsInLf;
  }

  /** Trailers end with the first empty line, under every policy, and everything up to there is handed on. */
  lemma {:induction false} TrailersExactly(p: Policy, m: Machine, s: string, t: string)
    requires Consistent(m.f) && m.f.state.ReadingTrailer? && Tracks(m.f.termChars, s) && t != [] && NotYet(s, t)
    ensures var m' := Run(p, m, t);
            && m'.trailer == m.trailer + t && m'.raw == m.raw && m'.f.error == m.f.error
            && if EndsInEmptyLine(s + t) then m'.f.state.MessageFullyRead? && m'.trace == m.trace + [OnMessageDone]
               else m'.f.state.ReadingTrailer? && m'.trace == m.trace
    decreases |t|
  {
    hide Step, Tracks, EndsInEmptyLine, NotYet;
    var c, rest := t[0], t[1..];
    NotYetRest(s, t);
    TrailerByte(p, m, s, c);
    FirstStep(p, m, t);
    var m1 := Step(p, m, c);
    if rest == [] {
      assert s + [c] + [] == s + [c] && t == [c];
    } else {
      TrailersExactly(p, m1, s + [c], rest);
      assert m.trailer + [c] + rest == m.trailer + t;
    }
  }

  // ---------------------------------------------------------------------------------------------
  // The end of the last chunk

  /** Behind the last chunk and `s`, which begins with the line feed of its size line. */
  predicate Ending(m: Machine, s: string) {
    Consistent(m.f) && m.f.state.ReadingLastChunkTerm? && Tracks(m.f.termChars, s)
  }

  lemma EndingByte(p: Policy, m: Machine, s: string, c: char)
    requires Ending(m, s)
    ensures var m' := Step(p, m, c);
            if EndsInLf(s + [c]) && p.requireCrlfCrlf then Failed(m', InvalidChunkFraming, m.trace)
            else if EndsInEmptyLine(s + [c]) then
              && m'.f.state.MessageFullyRead? && m'.raw == m.raw + [c] && m'.trailer == m.trailer
              && m'.trace == m.trace + [OnMessageDone] && m'.f.error == m.f.error
            else if IsLineEnd(c) then
              && Ending(m', s + [c]) && m'.raw == m.raw + [c] && m'.trailer == m.trailer
              && m'.trace == m.trace && m'.f.error == m.f.error
            else
              && m'.f.state.ReadingTrailer? && Tracks(m'.f.termChars, [c]) && m'.trailer == m.trailer + [c]
              && m'.raw == m.raw && m'.trace == m.trace && m'.f.error == m.f.error
  {
    FramingExactly(m.f.termChars, s, c);
    StepsElsewhere(p, m, c);
    NotBoth(s, c);
    if !IsLineEnd(c) {
      NoFraming(0, c);
      NoFraming(m.f.termChars, c);
    }
    hide Step, HeaderFraming, EndsInCrlf, EndsInLf;
  }

  lemma NoFraming(term: nat, c: char)
    requires !IsLineEnd(c)
    ensures HeaderFraming(term, c) == (0, NotFound) && Tracks(0, [c])
  {
  }

  lemma NotBoth(s: string, c: char)
    ensures !(EndsInCrlf(s + [c]) && EndsInLf(s + [c]))
  {
    LastBytes(s, c);
    hide EndsInCrlf, EndsInLf;
  }

  /** Line ends behind the last chunk: the message ends with the first empty line, or fails if that is a bare
      line feed and the policy asks for more. */
  lemma {:induction false} EndExactly(p: Policy, m: Machine, s: string, t: string)
    requires Ending(m, s) && t != [] && (forall i :: 0 <= i < |t| ==> IsLineEnd(t[i])) && NotYet(s, t)
    ensures var m' := Run(p, m, t);
            if EndsInLf(s + t) && p.requireCrlfCrlf then Failed(m', InvalidChunkFraming, m.trace)
            else
              && m'.raw == m.raw + t && m'.trailer == m.trailer && m'.f.error == m.f.error
              && if EndsInEmptyLine(s + t)
                 then m'.f.state.MessageFullyRead? && m'.trace == m.trace + [OnMessageDone]
                 else Ending(m', s + t) && m'.trace == m.trace
    decreases |t|
  {
    hide Step, Tracks, EndsInLf, EndsInCrlf, NotYet;
    var c, rest := t[0], t[1..];
    NotYetRest(s, t);
    EndingByte(p, m, s, c);
    FirstStep(p, m, t);
    var m1 := Step(p, m, c);
    if rest == [] {
      assert s + [c] + [] == s + [c] && t == [c];
    } else {
      EndExactly(p, m1, s + [c], rest);
      assert m.raw + [c] + rest == m.raw + t;
    }
  }

  /** Anything but a line end opens the trailers. */
  lemma TrailersBegin(p: Policy, m: Machine, s: string, c: char)
    requires Ending(m, s) && !IsLineEnd(c)
    ensures var m' := Run(p, m, [c]);
            && m'.f.state.ReadingTrailer? && Tracks(m'.f.termChars, [c]) && m'.trailer == m.trailer + [c]
            && m'.raw == m.raw && m'.trace == m.trace && m'.f.error == m.f.error
  {
    hide Step, Tracks, EndsInLf, EndsInCrlf;
    LastBytes(s, c);
    EndingByte(p, m, s, c);
    OneStep(p, m, c);
  }

  /** Behind the size line of the last chunk, its line feed counts as the end of a line. */
  lemma LastLineIsEnding(m: Machine, text: string)
    requires InFront(m)
    ensures Ending(AfterLine(m, text, 0), "\n")
  {
  }

  // ---------------------------------------------------------------------------------------------
  // Bodies without chunks

  /** Content of a known length is handed on byte by byte and ends exactly with it. */
  lemma {:induction false} ContentExactly(p: Policy, m: Machine, s: string)
    requires Consistent(m.f) && m.f.state.ReadingContent? && |s| <= m.f.contentRemaining
    ensures var m' := Run(p, m, s);
            && m'.raw == m.raw + s && m'.trailer == m.trailer && m'.f.error == m.f.error
            && if |s| == m.f.contentRemaining
               then m'.f.state.MessageFullyRead? && m'.trace == m.trace + Bodies(s) + [OnMessageDone]
               else
                 && m'.f.state.ReadingContent? && m'.f.contentRemaining == m.f.contentRemaining - |s|
                 && m'.trace == m.trace + Bodies(s)
    decreases |s|
  {
    if s == [] {
      assert m.raw + [] == m.raw && m.trace + Bodies([]) == m.trace;
    } else {
      var m1 := Step(p, m, s[0]);
      assert m.raw + [s[0]] + s[1..] == m.raw + s;
      BodiesCons(m.trace, s);
      if |s| == 1 {
        assert s[1..] == [] && Bodies(s) == [OnBody(s[0])];
      } else {
        ContentExactly(p, m1, s[1..]);
      }
    }
  }

  lemma BodiesCons(trace: seq<Atom>, s: string)
    requires s != []
    ensures trace + [OnBody(s[0])] + Bodies(s[1..]) == trace + Bodies(s)
  {
  }

  /** A body that ends with the connection is handed on byte by byte, and goes on. */
  lemma {:induction false} UntilCloseExactly(p: Policy, m: Machine, s: string)
    requires Consistent(m.f) && m.f.state.ReadingUntilClose?
    ensures Run(p, m, s) == m.(raw := m.raw + s, trace := m.trace + Bodies(s))
    decreases |s|
  {
    if s == [] {
      assert m.raw + [] == m.raw && m.trace + Bodies([]) == m.trace;
    } else {
      UntilCloseExactly(p, Step(p, m, s[0]), s[1..]);
      assert m.raw + [s[0]] + s[1..] == m.raw + s;
      BodiesCons(m.trace, s);
    }
  }
}
