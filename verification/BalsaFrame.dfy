/** The framer for HTTP/1 bodies: it works on whatever piece of input it is given. */
module BalsaFrame {
  import opened ChunkedBody
  import opened Sequences

  /** Keeps everything it is told. */
  class Visitor {
    var trace: seq<Atom>
    var raw: string
    var trailer: string

    constructor ()
      ensures trace == [] && raw == [] && trailer == []
    {
      trace, raw, trailer := [], [], [];
    }

    method OnRawBodyInput(s: string)
      modifies `raw
      ensures raw == old(raw) + s
    {
      raw := raw + s;
    }

    method OnBodyChunkInput(s: string)
      modifies `trace
      ensures trace == old(trace) + Bodies(s)
    {
      trace := trace + Bodies(s);
    }

    method OnTrailerInput(s: string)
      modifies `trailer
      ensures trailer == old(trailer) + s
    {
      trailer := trailer + s;
    }

    method On(a: Atom)
      modifies `trace
      ensures trace == old(trace) + [a]
    {
      trace := trace + [a];
    }
  }

  function Bodies(s: string): (t: seq<Atom>)
    ensures |t| == |s|
    ensures forall i :: 0 <= i < |s| ==> t[i] == OnBody(s[i])
  {
    seq(|s|, i requires 0 <= i < |s| => OnBody(s[i]))
  }

  /** What one byte does to the state it is read in. */
  datatype Move = Stay | Leave | Stop

  /** Where a call on some input has to lead, and how much of the input it has to consume. */
  datatype Goal = Goal(m: Machine, n: nat)

  ghost function GoalOf(p: Policy, m: Machine, s: string): (g: Goal)
    requires Consistent(m.f)
  {
    Goal(Run(p, m, s), Consumed(p, m, s))
  }

  // ---------------------------------------------------------------------------------------------
  // Several bytes of data at once

  function TakeData(m: Machine, s: string): (m': Machine)
    requires Consistent(m.f) && m.f.state.ReadingChunkData? && |s| <= m.f.chunkRemaining
    ensures Consistent(m'.f)
  {
    var f := m.f.(chunkRemaining := m.f.chunkRemaining - |s|);
    m.(f := if f.chunkRemaining == 0 then f.(state := ReadingChunkTerm, crAfterChunk := false) else f,
       trace := m.trace + Bodies(s), raw := m.raw + s)
  }

  lemma TakeDataCons(m: Machine, c: char, t: string)
    requires Consistent(m.f) && m.f.state.ReadingChunkData? && 1 + |t| <= m.f.chunkRemaining
    ensures var m1 := DataStep(m, c);
            TakeData(m, [c] + t) == if m.f.chunkRemaining == 1 then m1 else TakeData(m1, t)
  {
    assert Bodies([c] + t) == [OnBody(c)] + Bodies(t);
    assert m.trace + ([OnBody(c)] + Bodies(t)) == m.trace + [OnBody(c)] + Bodies(t);
    assert m.raw + ([c] + t) == m.raw + [c] + t;
    if m.f.chunkRemaining == 1 {
      assert m.trace + [OnBody(c)] + Bodies([]) == m.trace + [OnBody(c)];
    }
  }

  lemma DataRunStep(p: Policy, m: Machine, s: string)
    requires Consistent(m.f) && m.f.state.ReadingChunkData? && s != []
    ensures Consistent(DataStep(m, s[0]).f)
    ensures m.f.chunkRemaining > 1 ==> DataStep(m, s[0]).f.state.ReadingChunkData?
    ensures m.f.chunkRemaining > 1 ==> DataStep(m, s[0]).f.chunkRemaining == m.f.chunkRemaining - 1
    ensures Run(p, m, s) == Run(p, DataStep(m, s[0]), s[1..])
    ensures Consumed(p, m, s) == 1 + Consumed(p, DataStep(m, s[0]), s[1..])
  {
  }

  lemma {:induction false} DataRun(p: Policy, m: Machine, s: string, k: nat)
    requires Consistent(m.f) && m.f.state.ReadingChunkData? && k <= |s| && k <= m.f.chunkRemaining
    ensures Run(p, m, s) == Run(p, TakeData(m, s[..k]), s[k..])
    ensures Consumed(p, m, s) == k + Consumed(p, TakeData(m, s[..k]), s[k..])
    decreases k
  {
    hide TakeData, Run, Consumed, DataStep;
    if k == 0 {
      TakeNoData(m);
      assert s[..0] == [] && s[0..] == s;
    } else {
      var t := s[1..][..k - 1];
      assert s[..k] == [s[0]] + t && s[1..][k - 1..] == s[k..];
      DataRunStep(p, m, s);
      TakeDataCons(m, s[0], t);
      if m.f.chunkRemaining > 1 {
        DataRun(p, DataStep(m, s[0]), s[1..], k - 1);
      }
    }
  }

  lemma TakeNoData(m: Machine)
    requires Consistent(m.f) && m.f.state.ReadingChunkData?
    ensures TakeData(m, []) == m
  {
    assert m.trace + Bodies([]) == m.trace && m.raw + [] == m.raw;
  }

  function TakeContent(m: Machine, s: string): (m': Machine)
    requires Consistent(m.f) && m.f.state.ReadingContent? && |s| <= m.f.contentRemaining
    ensures Consistent(m'.f)
  {
    var m1 := m.(f := m.f.(contentRemaining := m.f.contentRemaining - |s|),
                 trace := m.trace + Bodies(s), raw := m.raw + s);
    if m1.f.contentRemaining == 0 then Done(m1) else m1
  }

  lemma TakeContentCons(m: Machine, c: char, t: string)
    requires Consistent(m.f) && m.f.state.ReadingContent? && 1 + |t| <= m.f.contentRemaining
    ensures var m1 := ContentStep(m, c);
            TakeContent(m, [c] + t) == if m.f.contentRemaining == 1 then m1 else TakeContent(m1, t)
  {
    assert Bodies([c] + t) == [OnBody(c)] + Bodies(t);
    assert m.trace + ([OnBody(c)] + Bodies(t)) == m.trace + [OnBody(c)] + Bodies(t);
    assert m.raw + ([c] + t) == m.raw + [c] + t;
    if m.f.contentRemaining == 1 {
      assert m.trace + [OnBody(c)] + Bodies([]) == m.trace + [OnBody(c)];
    }
  }

  lemma ContentRunStep(p: Policy, m: Machine, s: string)
    requires Consistent(m.f) && m.f.state.ReadingContent? && s != []
    ensures Consistent(ContentStep(m, s[0]).f)
    ensures m.f.contentRemaining > 1 ==> ContentStep(m, s[0]).f.state.ReadingContent?
    ensures m.f.contentRemaining > 1 ==> ContentStep(m, s[0]).f.contentRemaining == m.f.contentRemaining - 1
    ensures Run(p, m, s) == Run(p, ContentStep(m, s[0]), s[1..])
    ensures Consumed(p, m, s) == 1 + Consumed(p, ContentStep(m, s[0]), s[1..])
  {
  }

  lemma {:induction false} ContentRun(p: Policy, m: Machine, s: string, k: nat)
    requires Consistent(m.f) && m.f.state.ReadingContent? && k <= |s| && k <= m.f.contentRemaining
    ensures Run(p, m, s) == Run(p, TakeContent(m, s[..k]), s[k..])
    ensures Consumed(p, m, s) == k + Consumed(p, TakeContent(m, s[..k]), s[k..])
    decreases k
  {
    hide TakeContent, Run, Consumed, ContentStep;
    if k == 0 {
      TakeNoContent(m);
      assert s[..0] == [] && s[0..] == s;
    } else {
      var t := s[1..][..k - 1];
      assert s[..k] == [s[0]] + t && s[1..][k - 1..] == s[k..];
      ContentRunStep(p, m, s);
      TakeContentCons(m, s[0], t);
      if m.f.contentRemaining > 1 {
        ContentRun(p, ContentStep(m, s[0]), s[1..], k - 1);
      }
    }
  }

  lemma TakeNoContent(m: Machine)
    requires Consistent(m.f) && m.f.state.ReadingContent?
    ensures TakeContent(m, []) == m
  {
    assert m.trace + Bodies([]) == m.trace && m.raw + [] == m.raw;
  }

  lemma StepsUntilClose(p: Policy, m: Machine, c: char)
    requires Consistent(m.f) && m.f.state.ReadingUntilClose?
    ensures Step(p, m, c) == m.(trace := m.trace + [OnBody(c)], raw := m.raw + [c])
  {
  }

  function TakeAll(m: Machine, s: string): Machine {
    m.(trace := m.trace + Bodies(s), raw := m.raw + s)
  }

  lemma TakeAllCons(m: Machine, c: char, t: string)
    ensures TakeAll(m, [c] + t) == TakeAll(m.(trace := m.trace + [OnBody(c)], raw := m.raw + [c]), t)
    ensures TakeAll(m, []) == m
  {
    assert Bodies([c] + t) == [OnBody(c)] + Bodies(t);
    assert m.trace + ([OnBody(c)] + Bodies(t)) == m.trace + [OnBody(c)] + Bodies(t);
    assert m.raw + ([c] + t) == m.raw + [c] + t;
    assert m.trace + Bodies([]) == m.trace && m.raw + [] == m.raw;
  }

  lemma {:induction false} UntilCloseRun(p: Policy, m: Machine, s: string)
    requires Consistent(m.f) && m.f.state.ReadingUntilClose?
    ensures Run(p, m, s) == TakeAll(m, s)
    ensures Consumed(p, m, s) == |s|
    decreases |s|
  {
    hide TakeAll, Step;
    if s == [] {
      TakeAllCons(m, 'x', []);
    } else {
      StepsUntilClose(p, m, s[0]);
      TakeAllCons(m, s[0], s[1..]);
      assert s == [s[0]] + s[1..];
      UntilCloseRun(p, m.(trace := m.trace + [OnBody(s[0])], raw := m.raw + [s[0]]), s[1..]);
    }
  }

  /** The test that avoids the overflow it looks for. */
  lemma Overflows(length: nat, d: nat)
    requires length <= SIZE_MAX && d < 16
    ensures (length > SIZE_MAX / 16 || SIZE_MAX - length * 16 < d) <==> length * 16 + d > SIZE_MAX
  {
  }

  lemma PendingOneMore(reported: string, input: string, e: nat, i: nat)
    requires e <= i < |input|
    ensures reported + input[e..i] + [input[i]] == reported + input[e..i + 1]
  {
    assert input[e..i + 1] == input[e..i] + [input[i]];
  }

  lemma StepsInLength(p: Policy, m: Machine, c: char)
    requires Consistent(m.f)
    ensures m.f.state.ReadingChunkLength? ==> Step(p, m, c) == LengthStep(p, m, c)
    ensures var m1 := EnterExtension(m);
            Step(p, m1, c) == ExtensionStep(p, m1, c)
  {
  }

  lemma StepsElsewhere(p: Policy, m: Machine, c: char)
    requires Consistent(m.f)
    ensures m.f.state.ReadingChunkExtension? ==> Step(p, m, c) == ExtensionStep(p, m, c)
    ensures m.f.state.ReadingChunkTerm? ==> Step(p, m, c) == TermStep(p, m, c)
    ensures m.f.state.ReadingLastChunkTerm? ==> Step(p, m, c) == LastTermStep(p, m, c)
    ensures m.f.state.ReadingTrailer? ==> Step(p, m, c) == TrailerStep(m, c)
  {
  }

  /** One byte further. */
  lemma TrackStep(p: Policy, m: Machine, input: string, i: nat)
    requires Consistent(m.f) && !Terminal(m.f) && i < |input|
    ensures Run(p, m, input[i..]) == Run(p, Step(p, m, input[i]), input[i + 1..])
    ensures Consumed(p, m, input[i..]) == 1 + Consumed(p, Step(p, m, input[i]), input[i + 1..])
  {
    hide Step;
    assert input[i..][1..] == input[i + 1..];
  }

  lemma TrackStop(p: Policy, m: Machine, s: string)
    requires Consistent(m.f) && Terminal(m.f)
    ensures Run(p, m, s) == m && Consumed(p, m, s) == 0
  {
    RunTerminal(p, m, s);
  }

  class BalsaFrame {
    const policy: Policy
    const visitor: Visitor
    var parseState: ParseState
    var chunkRemaining: nat
    var contentRemaining: nat
    var lengthSeen: bool
    var lastCr: bool
    var crAfterChunk: bool
    var termChars: nat
    var error: ErrorCode

    constructor (policy: Policy, visitor: Visitor)
      ensures this.policy == policy && this.visitor == visitor
      ensures Abstract() == Start(visitor.trace, visitor.raw, visitor.trailer)
    {
      this.policy := policy;
      this.visitor := visitor;
      parseState := ReadingChunkLength;
      chunkRemaining, contentRemaining := 0, 0;
      lengthSeen, lastCr, crAfterChunk := false, false, false;
      termChars := 0;
      error := NoError;
    }

    ghost function FramerWith(cr: bool): (f: Framer)
      reads this
    {
      Framer(parseState, chunkRemaining, contentRemaining, lengthSeen,
             parseState.ReadingChunkExtension? && cr, crAfterChunk, termChars, error)
    }

    /** The framer and its visitor as a value, between two calls. */
    ghost function Abstract(): (m: Machine)
      reads this, visitor
    {
      Machine(FramerWith(lastCr), visitor.trace, visitor.raw, visitor.trailer)
    }

    ghost predicate Valid()
      reads this, visitor
    {
      Consistent(Abstract().f)
    }

    /** The same in the middle of a call: `input[e..i]` has been looked at but not reported. */
    ghost function At(input: string, e: nat, i: nat): (m: Machine)
      reads this, visitor
      requires e <= i <= |input|
    {
      var f := FramerWith(if i == 0 then lastCr else input[i - 1] == '\r');
      if parseState.ReadingTrailer? then Machine(f, visitor.trace, visitor.raw, visitor.trailer + input[e..i])
      else Machine(f, visitor.trace, visitor.raw + input[e..i], visitor.trailer)
    }

    ghost predicate OnTrack(input: string, e: nat, i: nat, g: Goal)
      reads this, visitor
    {
      && e <= i <= |input| && Valid() && Consistent(At(input, e, i).f)
      && Run(policy, At(input, e, i), input[i..]) == g.m
      && i + Consumed(policy, At(input, e, i), input[i..]) == g.n
    }

    ghost predicate Finished(i: nat, g: Goal)
      reads this, visitor
    {
      Valid() && Same(Abstract(), g.m) && (!parseState.ErrorState? ==> i == g.n)
    }

    /** All input is used up and reported. */
    lemma TrackEnd(input: string, e: nat, g: Goal)
      requires OnTrack(input, e, |input|, g)
      ensures At(input, e, |input|) == g.m && g.n == |input|
    {
    }

    method HandleError(code: ErrorCode)
      modifies `error, `parseState, visitor`trace
      ensures error == code && parseState == ErrorState && visitor.trace == old(visitor.trace) + [OnError(code)]
    {
      error := code;
      parseState := ErrorState;
      visitor.On(OnError(code));
    }

    method HandleWarning(code: ErrorCode)
      modifies `error, visitor`trace
      ensures error == code && visitor.trace == old(visitor.trace) + [OnWarning(code)]
    {
      error := code;
      visitor.On(OnWarning(code));
    }

    method ReadChunkLength(input: string, e: nat, i0: nat, ghost g: Goal) returns (i: nat, stop: bool)
      requires parseState.ReadingChunkLength? && OnTrack(input, e, i0, g)
      requires i0 > 0 ==> input[i0 - 1] != '\r'
      modifies `parseState, `chunkRemaining, `lengthSeen, `lastCr, `error, visitor
      ensures i0 <= i <= |input|
      ensures if stop then Finished(i, g)
              else
                && parseState.ReadingChunkExtension? && OnTrack(input, e, i, g) && i < |input|
                && (i > 0 ==> input[i - 1] != '\r')
    {
      assert i0 <= |input|;
      hide OnTrack, Finished;
      i := i0;
      while true
        invariant i0 <= i <= |input| && parseState.ReadingChunkLength? && OnTrack(input, e, i, g)
        invariant i > 0 ==> input[i - 1] != '\r'
        decreases |input| - i
      {
        if i == |input| {
          ReportRaw(input, e, g);
          return i, true;
        }
        var move := LengthByte(input, e, i, g);
        if move.Leave? {
          return i, false;
        }
        i := i + 1;
        if move.Stop? {
          return i, true;
        }
      }
    }

    method ReportRaw(input: string, e: nat, ghost g: Goal)
      requires OnTrack(input, e, |input|, g) && !parseState.ReadingTrailer?
      requires parseState.ReadingChunkExtension? ==> input != [] && lastCr == (input[|input| - 1] == '\r')
      modifies visitor`raw
      ensures Finished(|input|, g)
    {
      TrackEnd(input, e, g);
      visitor.OnRawBodyInput(input[e..]);
    }

    /** The offending byte is reported as part of the body. */
    method LengthError(input: string, e: nat, i: nat, code: ErrorCode, ghost g: Goal)
      requires parseState.ReadingChunkLength? && chunkRemaining <= SIZE_MAX && e <= i < |input|
      requires g.m.f.state.ErrorState? && g.m.f.error == code && g.m.trace == visitor.trace + [OnError(code)]
      modifies `parseState, `error, visitor
      ensures Finished(i + 1, g)
    {
      visitor.OnRawBodyInput(input[e..i + 1]);
      HandleError(code);
    }

    /** One byte of a chunk length. */
    method LengthByte(input: string, e: nat, i: nat, ghost g: Goal) returns (move: Move)
      requires parseState.ReadingChunkLength? && OnTrack(input, e, i, g) && i < |input|
      requires i > 0 ==> input[i - 1] != '\r'
      modifies `parseState, `chunkRemaining, `lengthSeen, `lastCr, `error, visitor
      ensures match move
              case Stay => parseState.ReadingChunkLength? && OnTrack(input, e, i + 1, g) && input[i] != '\r'
              case Leave => parseState.ReadingChunkExtension? && OnTrack(input, e, i, g)
              case Stop => Finished(i + 1, g)
    {
      assert HexDigit('\r') < 0;
      hide Run, Consumed, Step, ExtensionStep, HexDigit, IsDelimiter;
      var c := input[i];
      var addition := HexDigit(c);
      if addition >= 0 {
        move := LengthDigit(input, e, i, addition, g);
        return;
      }
      if !lengthSeen || !IsDelimiter(c) {
        LengthFails(input, e, i, InvalidChunkLength, g);
        LengthError(input, e, i, InvalidChunkLength, g);
        return Stop;
      }
      LeaveLength(input, e, i, g);
      return Leave;
    }

    lemma LengthFails(input: string, e: nat, i: nat, code: ErrorCode, g: Goal)
      requires parseState.ReadingChunkLength? && OnTrack(input, e, i, g) && i < |input|
      requires var m := At(input, e, i);
               LengthStep(policy, m, input[i]) == Fail(Raw(m, input[i]), code)
      ensures g.m.f.state.ErrorState? && g.m.f.error == code && g.m.trace == visitor.trace + [OnError(code)]
    {
      hide Run, Consumed, Step, LengthStep;
      var m := At(input, e, i);
      TrackStep(policy, m, input, i);
      StepsInLength(policy, m, input[i]);
      TrackStop(policy, LengthStep(policy, m, input[i]), input[i + 1..]);
    }

    method LengthDigit(input: string, e: nat, i: nat, addition: nat, ghost g: Goal) returns (move: Move)
      requires parseState.ReadingChunkLength? && OnTrack(input, e, i, g) && i < |input|
      requires HexDigit(input[i]) == addition
      modifies `parseState, `chunkRemaining, `lengthSeen, `error, visitor
      ensures match move
              case Stay => parseState.ReadingChunkLength? && OnTrack(input, e, i + 1, g)
              case Leave => false
              case Stop => Finished(i + 1, g)
    {
      hide Run, Consumed, Step, ExtensionStep, HexDigit, IsDelimiter;
      ghost var m := At(input, e, i);
      TrackStep(policy, m, input, i);
      StepsInLength(policy, m, input[i]);
      PendingOneMore(visitor.raw, input, e, i);
      var lengthX16 := chunkRemaining * 16;
      Overflows(chunkRemaining, addition);
      if chunkRemaining > SIZE_MAX / 16 || SIZE_MAX - lengthX16 < addition {
        LengthFails(input, e, i, ChunkLengthOverflow, g);
        lengthSeen := true;
        LengthError(input, e, i, ChunkLengthOverflow, g);
        return Stop;
      }
      lengthSeen := true;
      chunkRemaining := lengthX16 + addition;
      return Stay;
    }

    method LeaveLength(input: string, e: nat, i: nat, ghost g: Goal)
      requires parseState.ReadingChunkLength? && OnTrack(input, e, i, g) && i < |input|
      requires HexDigit(input[i]) < 0 && lengthSeen && IsDelimiter(input[i])
      requires i > 0 ==> input[i - 1] != '\r'
      modifies `parseState, `lastCr, visitor
      ensures parseState.ReadingChunkExtension? && OnTrack(input, e, i, g)
    {
      hide Run, Consumed, Step, ExtensionStep, HexDigit, IsDelimiter;
      ghost var m := At(input, e, i);
      TrackStep(policy, m, input, i);
      StepsInLength(policy, m, input[i]);
      parseState := ReadingChunkExtension;
      lastCr := false;
      visitor.On(OnChunkLength(chunkRemaining));
      assert At(input, e, i) == EnterExtension(m);
      TrackStep(policy, EnterExtension(m), input, i);
    }

    // A carriage return inside an extension has been checked against the byte after it, if that
    // byte is in the same piece of input.
    ghost predicate LookedAhead(input: string, i: nat) {
      policy.disallowLoneCr && 0 < i < |input| && input[i - 1] == '\r' ==> input[i] == '\n'
    }

    method IsValidChunkExtensionCharacter(input: string, i: nat) returns (valid: bool)
      requires i < |input| && LookedAhead(input, i)
      ensures var lastCrHere := if i == 0 then lastCr else input[i - 1] == '\r';
              valid <==> !BadExtensionByte(policy, lastCrHere, input[i])
                         && (input[i] == '\r' ==> LookedAhead(input, i + 1))
    {
      var c := input[i];
      if policy.disallowLoneCr {
        var crFollowedByNonLf := c == '\r' && i + 1 < |input| && input[i + 1] != '\n';
        var previousCrFollowedByNonLf := lastCr && i == 0 && c != '\n';
        if crFollowedByNonLf || previousCrFollowedByNonLf {
          return false;
        }
      }
      var previousIsCr := if i == 0 then lastCr else input[i - 1] == '\r';
      if c == '\n' && !previousIsCr {
        if policy.disallowLoneLf {
          return false;
        }
      }
      valid := true;
    }

    method ReadChunkExtension(input: string, e: nat, i0: nat, ghost g: Goal) returns (i: nat, stop: bool)
      requires parseState.ReadingChunkExtension? && OnTrack(input, e, i0, g) && i0 < |input|
      requires LookedAhead(input, i0)
      modifies `parseState, `lengthSeen, `lastCr, `termChars, `error, visitor
      ensures i0 <= i <= |input|
      ensures if stop then Finished(i, g)
              else
                && i0 < i && OnTrack(input, e, i, g)
                && (parseState.ReadingChunkData? || parseState.ReadingLastChunkTerm?)
    {
      i := i0;
      while true
        invariant i0 <= i <= |input| && parseState.ReadingChunkExtension? && OnTrack(input, e, i, g)
        invariant LookedAhead(input, i)
        invariant i == |input| ==> lastCr == (input[i - 1] == '\r')
        decreases |input| - i
      {
        hide OnTrack, Finished;
        if i == |input| {
          ReportRaw(input, e, g);
          return i, true;
        }
        var move := ExtensionByte(input, e, i, g);
        if move.Stop? {
          return i, true;
        }
        i := i + 1;
        if move.Leave? {
          return i, false;
        }
      }
    }

    /** One byte of a chunk extension; a line feed ends it. */
    method ExtensionByte(input: string, e: nat, i: nat, ghost g: Goal) returns (move: Move)
      requires parseState.ReadingChunkExtension? && OnTrack(input, e, i, g) && i < |input| && LookedAhead(input, i)
      modifies `parseState, `lengthSeen, `lastCr, `termChars, `error, visitor
      ensures match move
              case Stay =>
                && parseState.ReadingChunkExtension? && OnTrack(input, e, i + 1, g) && LookedAhead(input, i + 1)
                && (i + 1 == |input| ==> lastCr == (input[i] == '\r'))
              case Leave =>
                && OnTrack(input, e, i + 1, g)
                && (parseState.ReadingChunkData? || parseState.ReadingLastChunkTerm?)
              case Stop => Finished(i, g)
    {
      hide Run, Consumed, Step, HeaderFraming, BadExtensionByte;
      ghost var m := At(input, e, i);
      TrackStep(policy, m, input, i);
      StepsElsewhere(policy, m, input[i]);
      PendingOneMore(visitor.raw, input, e, i);
      var c := input[i];
      var valid := IsValidChunkExtensionCharacter(input, i);
      if !valid {
        BadExtension(input, e, i, g);
        HandleError(InvalidChunkExtension);
        return Stop;
      }
      if i + 1 == |input| {
        lastCr := c == '\r';
      }
      if c != '\n' {
        assert At(input, e, i + 1) == ExtensionStep(policy, m, c);
        return Stay;
      }
      EndOfExtension(input, e, i, Raw(m, c), g);
      return Leave;
    }

    method EndOfExtension(input: string, e: nat, i: nat, ghost m: Machine, ghost g: Goal)
      requires parseState.ReadingChunkExtension? && Valid() && e <= i < |input| && input[i] == '\n'
      requires Consistent(m.f) && m.(f := m.f.(lastCr := false)) == At(input, e, i + 1)
      requires Run(policy, LeaveExtension(m), input[i + 1..]) == g.m
      requires i + 1 + Consumed(policy, LeaveExtension(m), input[i + 1..]) == g.n
      modifies `parseState, `lengthSeen, `termChars
      ensures OnTrack(input, e, i + 1, g) && (parseState.ReadingChunkData? || parseState.ReadingLastChunkTerm?)
    {
      hide Run, Consumed, HeaderFraming;
      lengthSeen := false;
      if chunkRemaining != 0 {
        parseState := ReadingChunkData;
        return;
      }
      var found := HeaderFramingFound('\n');
      parseState := ReadingLastChunkTerm;
    }

    /** An extension byte is refused either for what came before it or for what comes after it; byte
        by byte, the second kind shows one byte later. */
    lemma BadExtension(input: string, e: nat, i: nat, g: Goal)
      requires parseState.ReadingChunkExtension? && OnTrack(input, e, i, g) && i < |input| && LookedAhead(input, i)
      requires var lastCrHere := if i == 0 then lastCr else input[i - 1] == '\r';
               BadExtensionByte(policy, lastCrHere, input[i]) || (input[i] == '\r' && !LookedAhead(input, i + 1))
      ensures g.m.f.state.ErrorState? && g.m.f.error == InvalidChunkExtension
      ensures g.m.trace == visitor.trace + [OnError(InvalidChunkExtension)]
    {
      hide Run, Consumed, Step;
      var m := At(input, e, i);
      TrackStep(policy, m, input, i);
      StepsElsewhere(policy, m, input[i]);
      var m1 := ExtensionStep(policy, m, input[i]);
      if m1.f.state.ErrorState? {
        TrackStop(policy, m1, input[i + 1..]);
      } else {
        TrackStep(policy, m1, input, i + 1);
        StepsElsewhere(policy, m1, input[i + 1]);
        TrackStop(policy, ExtensionStep(policy, m1, input[i + 1]), input[i + 2..]);
      }
    }

    method HeaderFramingFound(c: char) returns (found: Framing)
      modifies `termChars
      ensures (termChars, found) == HeaderFraming(old(termChars), c)
    {
      if c == '\n' || c == '\r' {
        termChars := (termChars * 0x100 + c as int) % 0x1_0000_0000;
        if termChars % 0x100_0000 == TERM1 {
          termChars := 0;
          return FoundCrlf;
        }
        if termChars % 0x1_0000 == TERM2 {
          termChars := 0;
          return FoundLf;
        }
      } else {
        termChars := 0;
      }
      found := NotFound;
    }

    /** Like `OnTrack` for a framer that may just have read the last byte of a chunk. */
    ghost predicate OnTrackInData(input: string, e: nat, i: nat, g: Goal)
      reads this, visitor
    {
      && e <= i <= |input| && chunkRemaining <= SIZE_MAX && parseState.ReadingChunkData?
      && var m := At(input, e, i);
         var m1 := if chunkRemaining == 0 then m.(f := m.f.(state := ReadingChunkTerm, crAfterChunk := false)) else m;
         Run(policy, m1, input[i..]) == g.m && i + Consumed(policy, m1, input[i..]) == g.n
    }

    method ReadChunkData(input: string, e0: nat, i0: nat, ghost g: Goal) returns (i: nat, e: nat, stop: bool)
      requires parseState.ReadingChunkData? && OnTrack(input, e0, i0, g)
      modifies `parseState, `chunkRemaining, `crAfterChunk, visitor
      ensures i0 <= i <= |input|
      ensures e <= i
      ensures if stop then Finished(i, g) else i0 < i && parseState.ReadingChunkTerm? && OnTrack(input, e, i, g)
    {
      hide Run, Consumed, Step;
      i, e := i0, e0;
      while i < |input| && chunkRemaining != 0
        invariant i0 <= i && OnTrackInData(input, e, i, g) && (chunkRemaining == 0 ==> i0 < i)
        decreases |input| - i
      {
        var remaining := |input| - i;
        var consumed := if chunkRemaining < remaining then chunkRemaining else remaining;
        TakeChunkData(input, e, i, consumed, g);
        i := i + consumed;
        e := i;
      }
      if chunkRemaining == 0 {
        parseState := ReadingChunkTerm;
        crAfterChunk := false;
        return i, e, false;
      }
      ReportRaw(input, e, g);
      stop := true;
    }

    method TakeChunkData(input: string, e: nat, i: nat, consumed: nat, ghost g: Goal)
      requires OnTrackInData(input, e, i, g) && i + consumed <= |input| && 0 < consumed <= chunkRemaining
      modifies `chunkRemaining, visitor
      ensures chunkRemaining == old(chunkRemaining) - consumed
      ensures OnTrackInData(input, i + consumed, i + consumed, g)
    {
      hide Run, Consumed, Step;
      ghost var m := At(input, e, i);
      DataRun(policy, m, input[i..], consumed);
      assert input[i..][..consumed] == input[i..i + consumed];
      assert input[i..][consumed..] == input[i + consumed..];
      assert visitor.raw + input[e..i] + input[i..i + consumed] == visitor.raw + input[e..i + consumed] + [];
      assert input[i + consumed..i + consumed] == [];
      visitor.OnRawBodyInput(input[e..i + consumed]);
      visitor.OnBodyChunkInput(input[i..i + consumed]);
      chunkRemaining := chunkRemaining - consumed;
    }

    method ReadChunkTerm(input: string, e: nat, i0: nat, ghost g: Goal) returns (i: nat, stop: bool)
      requires parseState.ReadingChunkTerm? && OnTrack(input, e, i0, g)
      modifies `parseState, `crAfterChunk, `error, visitor
      ensures i0 <= i <= |input|
      ensures if stop then Finished(i, g)
              else i0 < i && parseState.ReadingChunkLength? && OnTrack(input, e, i, g) && input[i - 1] != '\r'
    {
      hide Run, Consumed, Step;
      i := i0;
      while true
        invariant i0 <= i <= |input| && parseState.ReadingChunkTerm? && OnTrack(input, e, i, g)
        decreases |input| - i
      {
        if i == |input| {
          TrackEnd(input, e, g);
          visitor.OnRawBodyInput(input[e..i]);
          return i, true;
        }
        stop := TermByte(input, e, i, g);
        i := i + 1;
        if stop || parseState.ReadingChunkLength? {
          return;
        }
      }
    }

    method TermByte(input: string, e: nat, i: nat, ghost g: Goal) returns (stop: bool)
      requires parseState.ReadingChunkTerm? && i < |input| && OnTrack(input, e, i, g)
      modifies `parseState, `crAfterChunk, `error, visitor
      ensures stop ==> Finished(i + 1, g)
      ensures !stop ==> OnTrack(input, e, i + 1, g)
      ensures !stop ==> parseState.ReadingChunkTerm? || (parseState.ReadingChunkLength? && input[i] != '\r')
    {
      hide Run, Consumed, Step;
      ghost var m := At(input, e, i);
      TrackStep(policy, m, input, i);
      StepsElsewhere(policy, m, input[i]);
      PendingOneMore(visitor.raw, input, e, i);
      var c := input[i];
      var stray := if c == '\r' then crAfterChunk else if c == '\n' then !crAfterChunk else true;
      if stray {
        if policy.disallowStrayData {
          TrackStop(policy, TermStep(policy, m, c), input[i + 1..]);
          HandleError(StrayDataAfterChunk);
          return true;
        } else {
          HandleWarning(StrayDataAfterChunk);
        }
      }
      if c == '\r' {
        crAfterChunk := true;
      } else if c == '\n' {
        parseState := ReadingChunkLength;
      }
      stop := false;
    }

    method ReadLastChunkTerm(input: string, e0: nat, i0: nat, ghost g: Goal) returns (i: nat, e: nat, stop: bool)
      requires parseState.ReadingLastChunkTerm? && OnTrack(input, e0, i0, g)
      modifies `parseState, `termChars, `error, visitor
      ensures i0 <= i <= |input|
      ensures e <= i
      ensures if stop then Finished(i, g) else parseState.ReadingTrailer? && OnTrack(input, e, i, g)
    {
      i, e := i0, e0;
      while true
        invariant i0 <= i <= |input| && e == e0 && parseState.ReadingLastChunkTerm? && OnTrack(input, e, i, g)
        decreases |input| - i
      {
        hide OnTrack, Finished;
        if i == |input| {
          ReportRaw(input, e, g);
          return i, e, true;
        }
        var move := LastTermByte(input, e, i, g);
        if move.Leave? {
          e := i;
          return i, e, false;
        }
        i := i + 1;
        if move.Stop? {
          return i, e, true;
        }
      }
    }

    /** One byte after the last chunk: a line end that completes the message, one that may, or the
        first byte of a trailer. */
    method LastTermByte(input: string, e: nat, i: nat, ghost g: Goal) returns (move: Move)
      requires parseState.ReadingLastChunkTerm? && OnTrack(input, e, i, g) && i < |input|
      modifies `parseState, `termChars, `error, visitor
      ensures match move
              case Stay => parseState.ReadingLastChunkTerm? && OnTrack(input, e, i + 1, g)
              case Leave => parseState.ReadingTrailer? && OnTrack(input, i, i, g)
              case Stop => Finished(i + 1, g)
    {
      hide Run, Consumed, Step, HeaderFraming;
      ghost var m := At(input, e, i);
      TrackStep(policy, m, input, i);
      StepsElsewhere(policy, m, input[i]);
      PendingOneMore(visitor.raw, input, e, i);
      var c := input[i];
      var found := HeaderFramingFound(c);
      if !found.NotFound? {
        TrackStop(policy, LastTermStep(policy, m, c), input[i + 1..]);
        if !found.FoundCrlf? && policy.requireCrlfCrlf {
          HandleError(InvalidChunkFraming);
          return Stop;
        }
        parseState := MessageFullyRead;
        visitor.OnRawBodyInput(input[e..i + 1]);
        visitor.On(OnMessageDone);
        return Stop;
      }
      if termChars == 0 {
        parseState := ReadingTrailer;
        visitor.OnRawBodyInput(input[e..i]);
        assert visitor.trailer + input[i..i] == visitor.trailer;
        EntersTrailer(input, i, m, g);
        return Leave;
      }
      return Stay;
    }

    lemma EntersTrailer(input: string, i: nat, m: Machine, g: Goal)
      requires i < |input| && Valid() && parseState.ReadingTrailer? && termChars == 0 && Consistent(m.f)
      requires At(input, i, i) == m.(f := m.f.(state := ReadingTrailer, termChars := 0))
      requires m.f.state.ReadingLastChunkTerm? && HeaderFraming(m.f.termChars, input[i]) == (0, NotFound)
      requires Run(policy, m, input[i..]) == g.m && i + Consumed(policy, m, input[i..]) == g.n
      ensures OnTrack(input, i, i, g)
    {
      hide Run, Consumed, Step, HeaderFraming;
      var m1 := At(input, i, i);
      TrackStep(policy, m, input, i);
      StepsElsewhere(policy, m, input[i]);
      TrackStep(policy, m1, input, i);
      StepsElsewhere(policy, m1, input[i]);
    }

    method ReadTrailer(input: string, e: nat, i0: nat, ghost g: Goal) returns (i: nat)
      requires parseState.ReadingTrailer? && OnTrack(input, e, i0, g)
      modifies `parseState, `termChars, visitor
      ensures i0 <= i <= |input| && Finished(i, g)
    {
      hide Run, Consumed, Step, HeaderFraming;
      i := i0;
      while i < |input|
        invariant i0 <= i <= |input| && parseState.ReadingTrailer? && OnTrack(input, e, i, g)
        decreases |input| - i
      {
        ghost var m := At(input, e, i);
        TrackStep(policy, m, input, i);
        StepsElsewhere(policy, m, input[i]);
        PendingOneMore(visitor.trailer, input, e, i);
        var c := input[i];
        i := i + 1;
        var found := HeaderFramingFound(c);
        if !found.NotFound? {
          TrackStop(policy, TrailerStep(m, c), input[i..]);
          parseState := MessageFullyRead;
          visitor.OnTrailerInput(input[e..i]);
          visitor.On(OnMessageDone);
          return;
        }
      }
      TrackEnd(input, e, g);
      visitor.OnTrailerInput(input[e..i]);
    }

    /** With nothing left to read, only the end of the message is missing. */
    ghost predicate OnTrackInContent(input: string, i: nat, g: Goal)
      reads this, visitor
    {
      && i <= |input| && parseState.ReadingContent?
      && if contentRemaining > 0 then OnTrack(input, i, i, g)
         else chunkRemaining <= SIZE_MAX && g == Goal(Done(Abstract()), i)
    }

    method ReadContent(input: string, ghost g: Goal) returns (i: nat)
      requires parseState.ReadingContent? && OnTrack(input, 0, 0, g)
      modifies `parseState, `contentRemaining, visitor
      ensures i <= |input| && Finished(i, g)
    {
      hide Run, Consumed, Step;
      i := 0;
      while contentRemaining != 0 && i < |input|
        invariant OnTrackInContent(input, i, g)
        decreases |input| - i
      {
        var remaining := |input| - i;
        var consumed := if contentRemaining < remaining then contentRemaining else remaining;
        TakeContentInput(input, i, consumed, g);
        i := i + consumed;
      }
      if contentRemaining == 0 {
        parseState := MessageFullyRead;
        visitor.On(OnMessageDone);
      } else {
        TrackEnd(input, i, g);
        assert visitor.raw + input[i..i] == visitor.raw;
      }
    }

    method TakeContentInput(input: string, i: nat, consumed: nat, ghost g: Goal)
      requires OnTrackInContent(input, i, g) && i + consumed <= |input| && 0 < consumed <= contentRemaining
      modifies `contentRemaining, visitor
      ensures contentRemaining == old(contentRemaining) - consumed
      ensures OnTrackInContent(input, i + consumed, g)
    {
      hide Run, Consumed, Step;
      ghost var m := At(input, i, i);
      ContentRun(policy, m, input[i..], consumed);
      assert input[i..][..consumed] == input[i..i + consumed];
      assert input[i..][consumed..] == input[i + consumed..];
      assert visitor.raw + input[i..i] == visitor.raw;
      assert visitor.raw + input[i..i + consumed] + input[i + consumed..i + consumed]
          == visitor.raw + input[i..i + consumed];
      ghost var m1 := TakeContent(m, input[i..i + consumed]);
      if Terminal(m1.f) {
        TrackStop(policy, m1, input[i + consumed..]);
      }
      visitor.OnRawBodyInput(input[i..i + consumed]);
      visitor.OnBodyChunkInput(input[i..i + consumed]);
      contentRemaining := contentRemaining - consumed;
    }

    method ReadUntilClose(input: string, ghost g: Goal) returns (i: nat)
      requires parseState.ReadingUntilClose? && OnTrack(input, 0, 0, g)
      modifies visitor
      ensures i <= |input| && Finished(i, g)
    {
      hide Run, Consumed, Step;
      i := 0;
      UntilCloseRun(policy, At(input, 0, 0), input[0..]);
      assert input[0..] == input && visitor.raw + input[0..0] == visitor.raw;
      if |input| > 0 {
        visitor.OnRawBodyInput(input);
        visitor.OnBodyChunkInput(input);
        i := |input|;
      } else {
        assert visitor.trace + Bodies([]) == visitor.trace && visitor.raw + [] == visitor.raw;
      }
    }

    /** One call does what its bytes do one after another. */
    method ProcessInput(input: string) returns (n: nat)
      requires Valid()
      modifies this, visitor
      ensures Valid() && n <= |input|
      ensures Same(Abstract(), Run(policy, old(Abstract()), input))
      ensures !parseState.ErrorState? ==> n == Consumed(policy, old(Abstract()), input)
    {
      hide Run, Consumed, Step;
      if parseState.MessageFullyRead? || parseState.ErrorState? {
        TrackStop(policy, Abstract(), input);
        return 0;
      }
      if input == [] {
        RunNothing(policy, Abstract());
        return 0;
      }
      ghost var g := GoalOf(policy, Abstract(), input);
      assert input[0..] == input;
      assert visitor.raw + input[0..0] == visitor.raw && visitor.trailer + input[0..0] == visitor.trailer;
      assert OnTrack(input, 0, 0, g);
      if parseState.ReadingContent? {
        n := ReadContent(input, g);
        return;
      }
      if parseState.ReadingUntilClose? {
        n := ReadUntilClose(input, g);
        return;
      }
      n := ProcessChunked(input, g);
    }

    method ProcessChunked(input: string, ghost g: Goal) returns (i: nat)
      requires OnTrack(input, 0, 0, g) && input != []
      requires parseState in {ReadingChunkLength, ReadingChunkExtension, ReadingChunkData, ReadingChunkTerm,
                              ReadingLastChunkTerm, ReadingTrailer}
      modifies this, visitor
      ensures i <= |input| && Finished(i, g)
    {
      hide Run, Consumed, Step;
      i := 0;
      var e: nat, stop := 0, false;
      while !stop
        invariant e <= i <= |input|
        invariant if stop then Finished(i, g)
                  else
                    && OnTrack(input, e, i, g)
                    && parseState in {ReadingChunkLength, ReadingChunkExtension, ReadingChunkData, ReadingChunkTerm,
                                      ReadingLastChunkTerm, ReadingTrailer}
                    && (parseState.ReadingChunkLength? ==> i > 0 ==> input[i - 1] != '\r')
                    && (parseState.ReadingChunkExtension? ==> i < |input| && LookedAhead(input, i))
        decreases !stop, |input| - i,
                  if parseState.ReadingChunkLength? || parseState.ReadingLastChunkTerm? then 1 else 0
      {
        if parseState.ReadingChunkLength? {
          i, stop := ReadChunkLength(input, e, i, g);
        } else if parseState.ReadingChunkExtension? {
          i, stop := ReadChunkExtension(input, e, i, g);
        } else if parseState.ReadingChunkData? {
          i, e, stop := ReadChunkData(input, e, i, g);
        } else if parseState.ReadingChunkTerm? {
          i, stop := ReadChunkTerm(input, e, i, g);
        } else if parseState.ReadingLastChunkTerm? {
          i, e, stop := ReadLastChunkTerm(input, e, i, g);
        } else {
          i := ReadTrailer(input, e, i, g);
          stop := true;
        }
      }
    }

    /** Any cutting of the input into calls comes to the same thing as the whole input: the same state
        and error, and the same callbacks in the same order. */
    method ProcessPieces(pieces: seq<string>)
      requires Valid()
      modifies this, visitor
      ensures Valid()
      ensures Same(Abstract(), Run(policy, old(Abstract()), Concat(pieces)))
    {
      hide Run, Consumed, Step;
      RunNothing(policy, Abstract());
      for k := 0 to |pieces|
        invariant Valid()
        invariant Same(Abstract(), Run(policy, old(Abstract()), Concat(pieces[..k])))
      {
        ghost var m := Abstract();
        ghost var whole := Run(policy, old(Abstract()), Concat(pieces[..k]));
        var n := ProcessInput(pieces[k]);
        RunSame(policy, m, whole, pieces[k]);
        ConcatSnoc(pieces, k);
        RunSplit(policy, old(Abstract()), Concat(pieces[..k]), pieces[k]);
      }
      assert pieces[..|pieces|] == pieces;
    }
  }

  lemma RunNothing(p: Policy, m: Machine)
    requires Consistent(m.f)
    ensures Run(p, m, []) == m && Consumed(p, m, []) == 0
  {
  }

  /** A framer in front of the first chunk. */
  function Start(trace: seq<Atom>, raw: string, trailer: string): (m: Machine)
    ensures Consistent(m.f)
  {
    Machine(Framer(ReadingChunkLength, 0, 0, false, false, false, 0, NoError), trace, raw, trailer)
  }
}
