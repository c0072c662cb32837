/** Where a stream is cut into `Decode` calls does not matter, with one exception at its very end. */
module BinaryHttpSplit {
  import opened Bytes
  import VarInt62
  import opened BinaryHttpStream
  import opened Sequences

  // ---------------------------------------------------------------------------------------------
  // What one unit makes of a longer input

  lemma {:induction false} StringsExtend(a: seq<byte>, b: seq<byte>, n: nat)
    requires ReadStrings(a, n).Got?
    ensures ReadStrings(a + b, n) == Got(ReadStrings(a, n).value, ReadStrings(a, n).rest + b)
    decreases n
  {
    hide VarInt62.ReadString;
    if n > 0 {
      VarInt62.ReadStringExtends(a, b);
      StringsExtend(VarInt62.ReadString(a).rest, b, n - 1);
    }
  }

  lemma ControlDataExtends(a: seq<byte>, b: seq<byte>)
    requires ReadControlData(a).Got?
    ensures ReadControlData(a + b) == Got(ReadControlData(a).value, ReadControlData(a).rest + b)
  {
    hide ReadStrings;
    StringsExtend(a, b, 4);
  }

  lemma FieldExtends(a: seq<byte>, b: seq<byte>, n: nat)
    requires ReadField(a, n).Got?
    ensures ReadField(a + b, n) == Got(ReadField(a, n).value, ReadField(a, n).rest + b)
  {
    hide VarInt62.ReadString;
    VarInt62.TakeExtends(a, b, n);
    VarInt62.ReadStringExtends(VarInt62.Take(a, n).rest, b);
  }

  lemma EntryExtends(sec: Section, n: nat, a: seq<byte>, b: seq<byte>)
    requires IsTerminated(sec) && !EntryUnit(sec, n, a).NotYet?
    ensures EntryUnit(sec, n, a + b) == Extended(EntryUnit(sec, n, a), b)
  {
    hide ReadField;
    if n != 0 && sec.Body? {
      VarInt62.TakeExtends(a, b, n);
    } else if n != 0 {
      FieldExtends(a, b, n);
    }
  }

  /** A unit that is all there, or malformed, stays what it is however the stream goes on. */
  lemma UnitExtends(sec: Section, a: seq<byte>, b: seq<byte>)
    requires !NextUnit(sec, a).NotYet?
    ensures NextUnit(sec, a + b) == Extended(NextUnit(sec, a), b)
  {
    hide VarInt62.Read, ReadControlData, EntryUnit;
    match sec
    case End =>
    case Padding =>
      assert (a + b)[1..] == a[1..] + b;
    case Control =>
      VarInt62.ReadExtends(a, b);
      var Got(framing, s1) := VarInt62.Read(a);
      if framing == REQUEST_FRAMING {
        ControlDataExtends(s1, b);
      }
    case Framing =>
      VarInt62.ReadExtends(a, b);
    case StatusCode =>
      VarInt62.ReadExtends(a, b);
    case _ =>
      VarInt62.ReadExtends(a, b);
      var Got(n, s1) := VarInt62.Read(a);
      EntryExtends(sec, n, s1, b);
  }

  // ---------------------------------------------------------------------------------------------
  // What a run makes of a longer input

  /** Where a run over `a` stops to wait, a run over `a + b` goes on. */
  lemma {:induction false} RunSplit(h: Handler, last: bool, sec: Section, entered: bool,
                                    a: seq<byte>, b: seq<byte>, trace: seq<Event>)
    ensures var o := Run(h, false, sec, entered, a, trace);
            !o.result.Truncated? &&
            Run(h, last, sec, entered, a + b, trace) ==
            if o.result.Waiting? then
              Run(h, last, o.result.section, o.result.entered, o.result.rest + b, o.trace)
            else o
    decreases |a|
  {
    hide NextUnit, Deliver;
    var u := NextUnit(sec, a);
    if !u.NotYet? {
      UnitExtends(sec, a, b);
      NoUnitInNothing(sec);
      if u.Unit? {
        var (t, ok) := Deliver(h, trace, u.events);
        if ok {
          RunSplit(h, last, u.next, u.next != sec, u.rest, b, t);
        }
      }
    }
  }

  lemma NoUnitInNothing(sec: Section)
    ensures NextUnit(sec, []) == if sec.End? then Malformed else NotYet
  {
  }

  lemma EndHasNoUnits(s: seq<byte>)
    ensures NextUnit(End, s) == Malformed
  {
  }

  /** Without an end of stream, `entered` plays no part. */
  lemma RunIgnoresEntered(h: Handler, sec: Section, e1: bool, e2: bool, s: seq<byte>, trace: seq<Event>)
    ensures var o1, o2 := Run(h, false, sec, e1, s, trace), Run(h, false, sec, e2, s, trace);
            o1.trace == o2.trace && o1.result.Waiting? == o2.result.Waiting? &&
            if o1.result.Waiting? then
              o1.result.section == o2.result.section && o1.result.rest == o2.result.rest
            else o1 == o2
  {
    hide NextUnit, Deliver;
  }

  /** Nothing is left to decode in what a call leaves over, so the section it stops in is open. */
  lemma {:induction false} RunEndsOpen(h: Handler, last: bool, sec: Section, entered: bool, s: seq<byte>,
                                       trace: seq<Event>)
    requires Run(h, last, sec, entered, s, trace).result.Waiting?
    ensures var r := Run(h, last, sec, entered, s, trace).result;
            !r.section.End? && NextUnit(r.section, r.rest).NotYet?
    decreases |s|
  {
    hide NextUnit, Deliver;
    EndHasNoUnits(s);
    var u := NextUnit(sec, s);
    if u.Unit? {
      var (t, ok) := Deliver(h, trace, u.events);
      RunEndsOpen(h, last, u.next, u.next != sec, u.rest, t);
    }
  }

  /** Split invariance of `Decode` for calls that do not end the stream, from every decoder state and
      for every handler: the state, the carried-over bytes and the callbacks are those of one call,
      and that call fails exactly when one of the two does, with the same status. */
  lemma DecodeSplit(h: Handler, st: State, a: seq<byte>, b: seq<byte>)
    ensures var (st1, r1) := Decode(h, st, a, false);
            var (st2, r2) := Decode(h, st1, b, false);
            Decode(h, st, a + b, false) == (st2, if r1.Ok? then r2 else r1)
  {
    hide Run, NextUnit;
    if !st.section.End? {
      var s := st.buffer + a;
      RunSplit(h, false, st.section, true, s, b, st.trace);
      assert s + b == st.buffer + (a + b);
      var o := Run(h, false, st.section, true, s, st.trace);
      RunSplit(h, false, st.section, true, s + b, [], st.trace);
      assert s + b + [] == s + b;
      if o.result.Waiting? {
        RunEndsOpen(h, false, st.section, true, s, st.trace);
        RunIgnoresEntered(h, o.result.section, true, o.result.entered, o.result.rest + b, o.trace);
      } else {
        FailsForGood(h, false, st.section, true, s, st.trace);
      }
    }
  }

  lemma {:induction false} FailsForGood(h: Handler, last: bool, sec: Section, entered: bool, s: seq<byte>,
                                        trace: seq<Event>)
    requires Run(h, last, sec, entered, s, trace).result.Failed?
    ensures !Run(h, last, sec, entered, s, trace).result.status.Ok?
    decreases |s|
  {
    hide NextUnit, Deliver;
    var u := NextUnit(sec, s);
    if !TruncationPoint(last, sec, entered, s) && u.Unit? {
      var (t, ok) := Deliver(h, trace, u.events);
      if ok {
        FailsForGood(h, last, u.next, u.next != sec, u.rest, t);
      }
    }
  }

  /** Split invariance for any cutting of a stream into one or more pieces. */
  lemma {:induction false} DecodeAnyCutting(h: Handler, st: State, pieces: seq<seq<byte>>)
    requires pieces != []
    ensures var (st', ok) := DecodeAll(h, st, pieces);
            var (one, status) := Decode(h, st, Concat(pieces), false);
            st' == one && (ok <==> status.Ok?)
    decreases |pieces|
  {
    hide Decode;
    var (st1, r1) := Decode(h, st, pieces[0], false);
    if |pieces| == 1 {
      assert pieces[1..] == [];
      assert Concat(pieces) == pieces[0];
    } else {
      DecodeAnyCutting(h, st1, pieces[1..]);
      DecodeSplit(h, st, pieces[0], Concat(pieces[1..]));
    }
  }

  // ---------------------------------------------------------------------------------------------
  // The end of the stream

  /** The call that delivered everything up to here stopped between two body chunks, or between two
      trailers, and the stream ends right there. */
  predicate CutBetweenEntries(st: State, st1: State, b: seq<byte>) {
    && b == [] && st1.buffer == [] && |st1.trace| > |st.trace|
    && ((st1.section.Body? && st1.trace[|st1.trace| - 1].OnBodyChunk?)
        || (st1.section.Trailer? && st1.trace[|st1.trace| - 1].OnTrailer?))
  }

  lemma {:induction false} DeliverAll(h: Handler, trace: seq<Event>, events: seq<Event>)
    ensures var (t, ok) := Deliver(h, trace, events);
            (ok ==> t == trace + events) && |t| >= |trace| && (events != [] ==> |t| > |trace|)
    decreases |events|
  {
    if events != [] {
      var t := trace + [events[0]];
      DeliverAll(h, t, events[1..]);
      assert trace + events == t + events[1..];
    }
  }

  /** `entered` can be told from the callbacks. */
  lemma {:induction false} EnteredShows(h: Handler, sec: Section, entered: bool, s: seq<byte>, trace: seq<Event>)
    requires var r := Run(h, false, sec, entered, s, trace).result;
             r.Waiting? && (r.section.Body? || r.section.Trailer?)
    ensures var o := Run(h, false, sec, entered, s, trace);
            && trace <= o.trace
            && (|o.trace| == |trace| ==> o.result.section == sec && o.result.entered == entered)
            && (|o.trace| > |trace| ==>
                  var e := o.trace[|o.trace| - 1];
                  !o.result.entered <==> (if o.result.section.Body? then e.OnBodyChunk? else e.OnTrailer?))
    decreases |s|
  {
    hide NextUnit, Deliver;
    var u := NextUnit(sec, s);
    if u.Unit? {
      var (t, ok) := Deliver(h, trace, u.events);
      DeliverAll(h, trace, u.events);
      EnteredShows(h, u.next, u.next != sec, u.rest, t);
      UnitShows(sec, s);
    }
  }

  /** How the last callback of a unit tells whether its section has just been entered. */
  predicate Shows(sec: Section, events: seq<Event>, next: Section) {
    && (events == [] ==> next.StatusCode? || next.Padding?)
    && ((next.Body? || next.Trailer?) ==>
          |events| == 1 && (next == sec <==> (if next.Body? then events[0].OnBodyChunk? else events[0].OnTrailer?)))
  }

  lemma EntryShows(sec: Section, length: nat, s: seq<byte>)
    requires IsTerminated(sec) && EntryUnit(sec, length, s).Unit?
    ensures var u := EntryUnit(sec, length, s); Shows(sec, u.events, u.next)
  {
    hide VarInt62.Take, ReadField;
  }

  lemma UnitShows(sec: Section, s: seq<byte>)
    requires NextUnit(sec, s).Unit?
    ensures var u := NextUnit(sec, s); Shows(sec, u.events, u.next)
  {
    hide VarInt62.Read, ReadControlData;
    if IsTerminated(sec) {
      hide EntryUnit, Shows;
      EntryShows(sec, VarInt62.Read(s).value, VarInt62.Read(s).rest);
    }
  }

  /** The last call of a stream sees the same thing as one call on the whole stream, with the same
      callbacks and the same status, if and only if the stream was not cut between two entries of
      the body or the trailers and ended there.  In that case the piecewise decoder announces the
      end of the message, and the decoder that saw everything at once rejects it as incomplete. */
  lemma DecodeSplitAtEnd(h: Handler, st: State, a: seq<byte>, b: seq<byte>)
    ensures var (st1, r1) := Decode(h, st, a, false);
            var (st2, r2) := Decode(h, st1, b, true);
            var (one, r) := Decode(h, st, a + b, true);
            && (st2 == one <==> !CutBetweenEntries(st, st1, b))
            && (!CutBetweenEntries(st, st1, b) ==> r == if r1.Ok? then r2 else r1)
            && (CutBetweenEntries(st, st1, b) ==>
                  r == InvalidArgument && one.trace == st1.trace && |st2.trace| > |one.trace|)
  {
    hide Run, NextUnit;
    if !st.section.End? {
      var s := st.buffer + a;
      assert s + b == st.buffer + (a + b);
      RunSplit(h, true, st.section, true, s, b, st.trace);
      var o := Run(h, false, st.section, true, s, st.trace);
      if o.result.Waiting? {
        RunEndsOpen(h, false, st.section, true, s, st.trace);
        LastCall(h, o.result.section, o.result.entered, o.result.rest + b, o.trace);
        if o.result.section.Body? || o.result.section.Trailer? {
          EnteredShows(h, st.section, true, s, st.trace);
        }
      } else {
        FailsForGood(h, false, st.section, true, s, st.trace);
      }
    }
  }

  /** In the last call, `entered` matters only where nothing is left to decode. */
  lemma LastCall(h: Handler, sec: Section, entered: bool, s: seq<byte>, trace: seq<Event>)
    requires !sec.End?
    ensures entered || s != [] || !(sec.Body? || sec.Trailer?) ==>
              var o, o' := Run(h, true, sec, entered, s, trace), Run(h, true, sec, true, s, trace);
              o.trace == o'.trace && FinalStatus(o.result) == FinalStatus(o'.result)
    ensures !entered && s == [] && (sec.Body? || sec.Trailer?) ==>
              && Run(h, true, sec, entered, s, trace) == Outcome(trace, Waiting(sec, entered, s))
              && |Run(h, true, sec, true, s, trace).trace| > |trace|
  {
    hide NextUnit, Deliver;
    NoUnitInNothing(sec);
    DeliverAll(h, trace, TruncationEvents(sec));
  }
}
