/** What a decoder does with any input at all: which entries it takes, when a handler stops it, and when a
    stream may end. */
module BinaryHttpEnds {
  import opened Bytes
  import opened Sequences
  import VarInt62
  import opened DataWriter
  import opened BinaryHttpStream
  import opened BinaryHttpEncoder
  import opened BinaryHttpRoundTrip
  import opened BinaryHttpEntries
  import opened BinaryHttpSplit
  import BinaryHttpDecoder

  // ---------------------------------------------------------------------------------------------
  // Any input, entry by entry

  /** Entries one after another, each in the section the one before it leads to. */
  ghost predicate Chain(sec: Section, parts: seq<seq<byte>>, reports: seq<seq<Event>>, secs: seq<Section>) {
    && |parts| == |reports| == |secs|
    && forall i :: 0 <= i < |parts| ==> EntryIs(Where(sec, secs, i), parts[i], reports[i], secs[i])
  }

  /** The section in which the entry at `i` comes. */
  function Where(sec: Section, secs: seq<Section>, i: nat): Section
    requires i <= |secs|
  {
    if i == 0 then sec else secs[i - 1]
  }

  function LastOf(sec: Section, secs: seq<Section>): Section {
    if secs == [] then sec else secs[|secs| - 1]
  }

  lemma ChainCons(sec: Section, b: seq<byte>, events: seq<Event>, next: Section,
                  parts: seq<seq<byte>>, reports: seq<seq<Event>>, secs: seq<Section>)
    requires EntryIs(sec, b, events, next) && Chain(next, parts, reports, secs)
    ensures Chain(sec, [b] + parts, [events] + reports, [next] + secs)
    ensures LastOf(sec, [next] + secs) == LastOf(next, secs)
  {
    hide EntryIs;
    var parts', reports', secs' := [b] + parts, [events] + reports, [next] + secs;
    forall i | 0 <= i < |parts'|
      ensures EntryIs(Where(sec, secs', i), parts'[i], reports'[i], secs'[i])
    {
      if i > 0 {
        var k := i - 1;
        assert EntryIs(Where(next, secs, k), parts[k], reports[k], secs[k]);
        assert Where(sec, secs', i) == Where(next, secs, k);
      }
    }
  }

  /** Nothing that is left could be taken. */
  ghost predicate NothingTo(sec: Section, s: seq<byte>) {
    forall b: seq<byte>, events, next :: EntryIs(sec, b, events, next) ==> !(b <= s)
  }

  lemma NoUnitLeft(sec: Section, s: seq<byte>)
    requires !NextUnit(sec, s).Unit?
    ensures NothingTo(sec, s)
  {
    hide NextUnit, EntryIs;
    forall b: seq<byte>, events, next | EntryIs(sec, b, events, next) && b <= s ensures false {
      assert s == b + s[|b|..];
      UnitExactly(sec, s, events, next, s[|b|..]);
    }
  }

  lemma {:induction false} RunTakes(h: Handler, sec: Section, entered: bool, s: seq<byte>, trace: seq<Event>)
    returns (parts: seq<seq<byte>>, reports: seq<seq<Event>>, secs: seq<Section>, tail: seq<byte>)
    requires AcceptsAll(h)
    ensures Chain(sec, parts, reports, secs) && Concat(parts) + tail == s && NothingTo(LastOf(sec, secs), tail)
    ensures var o := Run(h, false, sec, entered, s, trace);
            && o.trace == trace + Concat(reports)
            && if Wrong(LastOf(sec, secs), tail) then o.result == Failed(InvalidArgument)
               else o.result.Waiting? && o.result.section == LastOf(sec, secs) && o.result.rest == tail
    decreases |s|
  {
    hide NextUnit, EntryIs, Wrong, Deliver, NothingTo, Chain, LastOf;
    var u := NextUnit(sec, s);
    MalformedExactly(sec, s);
    if u.Unit? {
      var b := TakenIsEntry(sec, s);
      DeliverAccepted(h, trace, u.events);
      var parts', reports', secs', tail' := RunTakes(h, u.next, u.next != sec, u.rest, trace + u.events);
      parts, reports, secs, tail := [b] + parts', [u.events] + reports', [u.next] + secs', tail';
      ChainCons(sec, b, u.events, u.next, parts', reports', secs');
      assert parts[1..] == parts' && reports[1..] == reports';
      assert b + Concat(parts') + tail == b + (Concat(parts') + tail);
      assert trace + u.events + Concat(reports') == trace + (u.events + Concat(reports'));
    } else {
      parts, reports, secs, tail := [], [], [], s;
      NoUnitLeft(sec, s);
      NoChain(sec);
      assert Concat(parts) + tail == s && trace + Concat(reports) == trace;
    }
  }

  lemma NoChain(sec: Section)
    ensures Chain(sec, [], [], []) && LastOf(sec, []) == sec
  {
  }

  /** Whatever the bytes, and with a handler that accepts everything: they are entries, each legal where it
      comes, and something behind them from which no entry can be taken.  All entries are reported in order.
      The call fails if and only if what is behind them is wrong, and otherwise keeps it for later. */
  lemma DecodeTakes(h: Handler, st: State, data: seq<byte>)
    returns (parts: seq<seq<byte>>, reports: seq<seq<Event>>, secs: seq<Section>, tail: seq<byte>)
    requires AcceptsAll(h) && !st.section.End?
    ensures Chain(st.section, parts, reports, secs) && Concat(parts) + tail == st.buffer + data
    ensures NothingTo(LastOf(st.section, secs), tail)
    ensures Decode(h, st, data, false)
         == if Wrong(LastOf(st.section, secs), tail)
            then (State(End, [], st.trace + Concat(reports)), InvalidArgument)
            else (State(LastOf(st.section, secs), tail, st.trace + Concat(reports)), Ok)
  {
    hide Run, EntryIs, Wrong, NothingTo, Chain, LastOf;
    parts, reports, secs, tail := RunTakes(h, st.section, true, st.buffer + data, st.trace);
  }

  // ---------------------------------------------------------------------------------------------
  // Any handler

  lemma {:induction false} DeliverStops(h: Handler, trace: seq<Event>, events: seq<Event>)
    ensures var (t, ok) := Deliver(h, trace, events);
            && trace <= t <= trace + events
            && (forall k :: |trace| < k < |t| ==> h(t[..k]))
            && if ok then t == trace + events && (events != [] ==> h(t)) else events != [] && |t| > |trace| && !h(t)
    decreases |events|
  {
    if events == [] {
      assert trace + events == trace;
    } else {
      var t1 := trace + [events[0]];
      assert trace + events == t1 + events[1..];
      if h(t1) {
        DeliverStops(h, t1, events[1..]);
        var t := Deliver(h, t1, events[1..]).0;
        forall k | |trace| < k < |t| ensures h(t[..k]) {
          if k == |t1| {
            assert t[..k] == t1;
          }
        }
      }
    }
  }

  /** A handler that accepts everything. */
  function Willing(): Handler {
    _ => true
  }

  /** What a handler is told does not depend on its answers, except that nothing comes after the first refusal. */
  ghost predicate StopsAt(h: Handler, before: seq<Event>, told: seq<Event>, all: seq<Event>) {
    && before <= told <= all
    && (forall k :: |before| < k < |told| ==> h(told[..k]))
    && (told != all ==> |told| > |before| && !h(told))
  }

  lemma {:induction false} RunStops(h: Handler, last: bool, sec: Section, entered: bool, s: seq<byte>,
                                    trace: seq<Event>)
    ensures var o, all := Run(h, last, sec, entered, s, trace), Run(Willing(), last, sec, entered, s, trace);
            && StopsAt(h, trace, o.trace, all.trace)
            && if |o.trace| > |trace| && !h(o.trace) then o.result == Failed(Internal) else o == all
    ensures Run(Willing(), last, sec, entered, s, trace).result != Failed(Internal)
    decreases |s|
  {
    hide NextUnit, Deliver;
    if TruncationPoint(last, sec, entered, s) {
      DeliverStops(h, trace, TruncationEvents(sec));
      DeliverStops(Willing(), trace, TruncationEvents(sec));
    } else {
      var u := NextUnit(sec, s);
      if u.Unit? {
        DeliverStops(h, trace, u.events);
        DeliverStops(Willing(), trace, u.events);
        var t := trace + u.events;
        RunStops(h, last, u.next, u.next != sec, u.rest, t);
        if Deliver(h, trace, u.events).1 {
          StopsLater(h, trace, t, Run(h, last, u.next, u.next != sec, u.rest, t).trace,
                     Run(Willing(), last, u.next, u.next != sec, u.rest, t).trace);
        }
      }
    }
  }

  lemma StopsLater(h: Handler, before: seq<Event>, mid: seq<Event>, told: seq<Event>, all: seq<Event>)
    requires before <= mid && StopsAt(h, mid, told, all)
    requires (forall k :: |before| < k < |mid| ==> h(mid[..k])) && (|mid| > |before| ==> h(mid))
    ensures StopsAt(h, before, told, all)
    ensures |told| > |before| && !h(told) ==> |told| > |mid|
  {
    if |told| == |mid| {
      assert told == mid;
    }
    forall k | |before| < k < |told| ensures h(told[..k]) {
      if k < |mid| {
        assert told[..k] == mid[..k];
      } else if k == |mid| {
        assert told[..k] == mid;
      }
    }
  }

  /** For every handler: it is told what a willing one is told, up to and with the first callback it refuses.
      If it refuses one, the call fails with an internal error; if not, everything is as with a willing one. */
  lemma HandlerOnlyStops(h: Handler, st: State, data: seq<byte>, last: bool)
    requires !st.section.End?
    ensures var (st1, r) := Decode(h, st, data, last);
            var (all, ok) := Decode(Willing(), st, data, last);
            && StopsAt(h, st.trace, st1.trace, all.trace) && !ok.Internal?
            && if |st1.trace| > |st.trace| && !h(st1.trace) then r.Internal? && st1.section.End?
               else (st1, r) == (all, ok)
  {
    hide Run, StopsAt;
    RunStops(h, last, st.section, true, st.buffer + data, st.trace);
    NotInternal(last, st.section, true, st.buffer + data, st.trace);
  }

  lemma NotInternal(last: bool, sec: Section, entered: bool, s: seq<byte>, trace: seq<Event>)
    ensures !(Run(Willing(), last, sec, entered, s, trace).result.Failed?
              && Run(Willing(), last, sec, entered, s, trace).result.status.Internal?)
  {
    hide Run, StopsAt;
    RunStops(Willing(), last, sec, entered, s, trace);
  }

  // ---------------------------------------------------------------------------------------------
  // The last call

  lemma NothingMore(h: Handler, st: State)
    requires !st.section.End? && NextUnit(st.section, st.buffer).NotYet?
    ensures var (st2, r) := Decode(h, st, [], true);
            if st.buffer != [] then r.InvalidArgument? && st2.trace == st.trace
            else if st.section.Padding? then r.Ok? && st2.trace == st.trace
            else if st.section.Trailer? then
              var t := st.trace + [OnTrailersDone];
              r == (if h(t) then Ok else Internal) && st2.trace == t
            else if st.section.Body? then
              var t1 := st.trace + [OnBodyChunksDone];
              var t2 := t1 + [OnTrailersDone];
              r == (if h(t1) && h(t2) then Ok else Internal) && st2.trace == if h(t1) then t2 else t1
            else r.InvalidArgument? && st2.trace == st.trace
  {
    assert st.buffer + [] == st.buffer;
    BinaryHttpDecoder.DeliverOne(h, st.trace, OnTrailersDone);
    BinaryHttpDecoder.DeliverTwo(h, st.trace, OnBodyChunksDone, OnTrailersDone);
    NoPaddingLeft(st.section, st.buffer);
    hide NextUnit, Deliver;
  }

  lemma NoPaddingLeft(sec: Section, s: seq<byte>)
    ensures sec.Padding? && s != [] ==> !NextUnit(sec, s).NotYet?
  {
  }

  lemma OpenAfter(h: Handler, st: State, data: seq<byte>)
    requires !st.section.End? && Decode(h, st, data, false).1.Ok?
    ensures var st1 := Decode(h, st, data, false).0; !st1.section.End? && NextUnit(st1.section, st1.buffer).NotYet?
  {
    hide Run, NextUnit;
    RunSplit(h, false, st.section, true, st.buffer + data, [], st.trace);
    var o := Run(h, false, st.section, true, st.buffer + data, st.trace);
    if o.result.Waiting? {
      RunEndsOpen(h, false, st.section, true, st.buffer + data, st.trace);
    } else {
      FailsForGood(h, false, st.section, true, st.buffer + data, st.trace);
    }
  }

  /** A call that ends the stream, from every state, on every input and for every handler, against the same
      call that does not end it.  Where that fails, it fails too.  With bytes left over, that is, in the middle
      of an entry, it is an error.  With none left over it succeeds if and only if the stream is in its
      padding, or at the start of its body or trailers and the handler takes the end of what is left off. */
  lemma LastCallExactly(h: Handler, st: State, data: seq<byte>)
    requires !st.section.End?
    ensures var (st1, r1) := Decode(h, st, data, false);
            var (st2, r) := Decode(h, st, data, true);
            && (!r1.Ok? ==> r == r1 && st2.trace == st1.trace)
            && (r1.Ok? && st1.buffer != [] ==> r.InvalidArgument? && st2.trace == st1.trace)
            && (r1.Ok? && st1.buffer == [] ==>
                  var t1 := st1.trace + [OnBodyChunksDone];
                  var t2 := if st1.section.Body? then t1 + [OnTrailersDone] else st1.trace + [OnTrailersDone];
                  if st1.section.Padding? then r.Ok? && st2.trace == st1.trace
                  else if (st1.section.Body? || st1.section.Trailer?) && !CutBetweenEntries(st, st1, []) then
                    && r == (if (st1.section.Body? ==> h(t1)) && h(t2) then Ok else Internal)
                    && st2.trace == if st1.section.Body? && !h(t1) then t1 else t2
                  else r.InvalidArgument? && st2.trace == st1.trace)
  {
    hide Decode, NextUnit, CutBetweenEntries;
    var (st1, r1) := Decode(h, st, data, false);
    assert data + [] == data;
    DecodeSplitAtEnd(h, st, data, []);
    if r1.Ok? {
      OpenAfter(h, st, data);
      NothingMore(h, st1);
      CutIsOpen(st, st1);
    } else {
      FailedEnds(h, st, data);
    }
  }

  lemma CutIsOpen(st: State, st1: State)
    ensures CutBetweenEntries(st, st1, []) ==> st1.buffer == [] && (st1.section.Body? || st1.section.Trailer?)
  {
  }

  lemma FailedEnds(h: Handler, st: State, data: seq<byte>)
    requires !st.section.End? && !Decode(h, st, data, false).1.Ok?
    ensures var st1 := Decode(h, st, data, false).0;
            st1.section.End? && Decode(h, st1, [], true).0.trace == st1.trace && !CutBetweenEntries(st, st1, [])
  {
    hide Run;
  }

  /** After a last call, and after one that failed, every further call is an error and reports nothing. */
  lemma NothingFollows(h: Handler, st: State, data: seq<byte>, last: bool, more: seq<byte>, last': bool)
    ensures var (st1, r) := Decode(h, st, data, last);
            last || !r.Ok? ==> Decode(h, st1, more, last') == (st1, Internal)
  {
    hide Run;
  }
}
