/** What the bytes of a Binary HTTP stream are, said of the bytes alone (RFC 9292, sections 3.1, 3.2, 3.4 to
    3.8), and that the decoder takes exactly these. */
module BinaryHttpEntries {
  import opened Bytes
  import opened Sequences
  import opened VarInt62
  import opened BinaryHttpStream
  import opened BinaryHttpRoundTrip
  import BinaryHttpSplit

  // ---------------------------------------------------------------------------------------------
  // The bytes

  /** A string and its length in front. */
  ghost predicate StringIs(b: seq<byte>, s: seq<byte>) {
    exists l: seq<byte> :: IsVarint(l, |s|) && b == l + s
  }

  /** A framing indicator of 2, and method, scheme, authority and path. */
  ghost predicate ControlIs(b: seq<byte>, c: ControlData) {
    exists f: seq<byte>, b1: seq<byte>, b2: seq<byte>, b3: seq<byte>, b4: seq<byte> ::
      && IsVarint(f, 2) && StringIs(b1, c.verb) && StringIs(b2, c.scheme)
      && StringIs(b3, c.authority) && StringIs(b4, c.path)
      && b == f + (b1 + (b2 + (b3 + b4)))
  }

  /** A name that is not empty, and a value. */
  ghost predicate FieldIs(b: seq<byte>, f: Field) {
    f.name != [] && exists n: seq<byte>, v: seq<byte> ::
      IsVarint(n, |f.name|) && StringIs(v, f.value) && b == n + (f.name + v)
  }

  ghost predicate ChunkIs(b: seq<byte>, c: seq<byte>) {
    c != [] && StringIs(b, c)
  }

  /** A section of fields: what a field and what the terminator is reported as, and which section follows. */
  ghost predicate InFields(b: seq<byte>, events: seq<Event>, next: Section,
                           report: Field -> Event, done: Event, sec: Section, after: Section)
  {
    || (IsVarint(b, 0) && events == [done] && next == after)
    || (exists f: Field :: FieldIs(b, f) && events == [report(f)] && next == sec)
  }

  /** The bytes of one entry of a section, what is reported of it, and the section that follows. */
  ghost predicate EntryIs(sec: Section, b: seq<byte>, events: seq<Event>, next: Section) {
    match sec
    case Control => next == Header && exists c: ControlData :: ControlIs(b, c) && events == [OnControlData(c)]
    case Framing => IsVarint(b, 3) && events == [] && next == StatusCode
    case StatusCode =>
      exists code: nat :: IsVarint(b, code) &&
        (|| (100 <= code <= 199 && events == [OnInformationalStatusCode(code)] && next == InformationalHeader)
         || (200 <= code <= 599 && next == FinalHeader
             && events == [OnInformationalSectionDone, OnFinalStatusCode(code)]))
    case Header => InFields(b, events, next, f => OnHeader(f), OnHeadersDone, Header, Body)
    case InformationalHeader =>
      InFields(b, events, next, f => OnInformationalHeader(f), OnInformationalResponseDone, InformationalHeader,
               StatusCode)
    case FinalHeader => InFields(b, events, next, f => OnFinalHeader(f), OnFinalHeadersDone, FinalHeader, Body)
    case Trailer => InFields(b, events, next, f => OnTrailer(f), OnTrailersDone, Trailer, Padding)
    case Body =>
      || (IsVarint(b, 0) && events == [OnBodyChunksDone] && next == Trailer)
      || (exists c: seq<byte> :: ChunkIs(b, c) && events == [OnBodyChunk(c)] && next == Body)
    case Padding => b == [0] && events == [] && next == Padding
    case End => false
  }

  /** What no entry of the section can begin with: a wrong framing indicator, a status code out of range,
      padding that is not zero. */
  ghost predicate Wrong(sec: Section, s: seq<byte>) {
    match sec
    case Control => exists n: nat, v: nat :: n <= |s| && IsVarint(s[..n], v) && v != 2
    case Framing => exists n: nat, v: nat :: n <= |s| && IsVarint(s[..n], v) && v != 3
    case StatusCode => exists n: nat, v: nat :: n <= |s| && IsVarint(s[..n], v) && (v < 100 || v > 599)
    case Padding => s != [] && s[0] != 0
    case End => true
    case _ => false
  }

  // ---------------------------------------------------------------------------------------------
  // Strings

  lemma StringIsRead(b: seq<byte>, s: seq<byte>, t: seq<byte>)
    requires StringIs(b, s)
    ensures b != [] && ReadString(b + t) == Got(s, t)
  {
    hide Read, IsVarint;
    var l: seq<byte> :| IsVarint(l, |s|) && b == l + s;
    NotEmpty(l, |s|);
    assert b + t == l + (s + t);
    ReadExactly(l, |s|, s + t);
    assert (s + t)[..|s|] == s && (s + t)[|s|..] == t;
  }

  lemma NotEmpty(b: seq<byte>, v: nat)
    requires IsVarint(b, v)
    ensures b != []
  {
  }

  lemma StringWasRead(s: seq<byte>) returns (b: seq<byte>)
    requires ReadString(s).Got?
    ensures StringIs(b, ReadString(s).value) && s == b + ReadString(s).rest
  {
    hide Read, IsVarint;
    var l := ReadIsVarint(s);
    b := l + ReadString(s).value;
    assert s == b + ReadString(s).rest;
  }

  // ---------------------------------------------------------------------------------------------
  // Entries are taken

  lemma ControlIsRead(b: seq<byte>, c: ControlData, t: seq<byte>)
    requires ControlIs(b, c)
    ensures NextUnit(Control, b + t) == Unit([OnControlData(c)], Header, t)
  {
    hide Read, ReadString, IsVarint, StringIs, ReadControlData;
    var f: seq<byte>, b1: seq<byte>, b2: seq<byte>, b3: seq<byte>, b4: seq<byte> :|
      && IsVarint(f, 2) && StringIs(b1, c.verb) && StringIs(b2, c.scheme)
      && StringIs(b3, c.authority) && StringIs(b4, c.path)
      && b == f + (b1 + (b2 + (b3 + b4)));
    var s4 := b4 + t;
    var s3 := b3 + s4;
    var s2 := b2 + s3;
    var s1 := b1 + s2;
    assert b + t == f + s1;
    NotEmpty(f, 2);
    ReadExactly(f, 2, s1);
    FourStringsRead(b1, b2, b3, b4, c, t);
  }

  lemma FourStringsRead(b1: seq<byte>, b2: seq<byte>, b3: seq<byte>, b4: seq<byte>, c: ControlData, t: seq<byte>)
    requires StringIs(b1, c.verb) && StringIs(b2, c.scheme) && StringIs(b3, c.authority) && StringIs(b4, c.path)
    ensures ReadControlData(b1 + (b2 + (b3 + (b4 + t)))) == Got(c, t)
  {
    hide ReadString, StringIs;
    var s4 := b4 + t;
    var s3 := b3 + s4;
    var s2 := b2 + s3;
    var s1 := b1 + s2;
    StringIsRead(b1, c.verb, s2);
    StringIsRead(b2, c.scheme, s3);
    StringIsRead(b3, c.authority, s4);
    StringIsRead(b4, c.path, t);
    assert ReadStrings(t, 0) == Got([], t);
    assert ReadStrings(s4, 1) == Got([c.path] + [], t);
    assert ReadStrings(s3, 2) == Got([c.authority] + ([c.path] + []), t);
    assert ReadStrings(s2, 3) == Got([c.scheme] + ([c.authority] + ([c.path] + [])), t);
    assert ReadStrings(s1, 4) == Got([c.verb] + ([c.scheme] + ([c.authority] + ([c.path] + []))), t);
  }

  lemma TerminatedUnit(sec: Section, s: seq<byte>)
    requires IsTerminated(sec)
    ensures NextUnit(sec, s)
         == match Read(s) { case Short => NotYet case Got(length, rest) => EntryUnit(sec, length, rest) }
  {
    hide Read, EntryUnit;
  }

  lemma FieldEntry(sec: Section, length: nat, s: seq<byte>)
    requires IsFieldSection(sec) && length != 0
    ensures EntryUnit(sec, length, s)
         == match ReadField(s, length) {
              case Short => NotYet
              case Got(f, rest) => Unit([FieldEvent(sec, f)], sec, rest)
            }
  {
    hide ReadField;
  }

  lemma ReadFieldIs(name: seq<byte>, v: seq<byte>, value: seq<byte>, t: seq<byte>)
    requires StringIs(v, value)
    ensures ReadField(name + (v + t), |name|) == Got(Field(name, value), t)
  {
    hide ReadString, StringIs;
    var s := name + (v + t);
    assert s[..|name|] == name && s[|name|..] == v + t;
    StringIsRead(v, value, t);
  }

  lemma FieldIsRead(sec: Section, b: seq<byte>, f: Field, t: seq<byte>)
    requires IsFieldSection(sec) && FieldIs(b, f)
    ensures NextUnit(sec, b + t) == Unit([FieldEvent(sec, f)], sec, t)
  {
    hide Read, IsVarint, StringIs, NextUnit, EntryUnit, ReadField;
    var n: seq<byte>, v: seq<byte> :| IsVarint(n, |f.name|) && StringIs(v, f.value) && b == n + (f.name + v);
    var s := f.name + (v + t);
    assert b + t == n + s;
    NotEmpty(n, |f.name|);
    ReadExactly(n, |f.name|, s);
    TerminatedUnit(sec, b + t);
    FieldEntry(sec, |f.name|, s);
    ReadFieldIs(f.name, v, f.value, t);
  }

  lemma ChunkIsRead(b: seq<byte>, c: seq<byte>, t: seq<byte>)
    requires ChunkIs(b, c)
    ensures NextUnit(Body, b + t) == Unit([OnBodyChunk(c)], Body, t)
  {
    hide Read, IsVarint;
    var l: seq<byte> :| IsVarint(l, |c|) && b == l + c;
    NotEmpty(l, |c|);
    assert b + t == l + (c + t);
    ReadExactly(l, |c|, c + t);
    assert (c + t)[..|c|] == c && (c + t)[|c|..] == t;
  }

  lemma ZeroIsRead(sec: Section, b: seq<byte>, t: seq<byte>)
    requires IsTerminated(sec) && IsVarint(b, 0)
    ensures NextUnit(sec, b + t) == Unit([DoneEvent(sec)], After(sec), t)
  {
    hide Read, IsVarint;
    NotEmpty(b, 0);
    ReadExactly(b, 0, t);
  }

  lemma FieldEntryIsRead(sec: Section, b: seq<byte>, events: seq<Event>, next: Section, t: seq<byte>)
    requires IsFieldSection(sec) && EntryIs(sec, b, events, next)
    ensures NextUnit(sec, b + t) == Unit(events, next, t)
  {
    hide NextUnit, FieldIs, IsVarint;
    if IsVarint(b, 0) {
      ZeroIsRead(sec, b, t);
    }
    forall f: Field | FieldIs(b, f) ensures NextUnit(sec, b + t) == Unit([FieldEvent(sec, f)], sec, t) {
      FieldIsRead(sec, b, f, t);
    }
  }

  lemma StatusIsRead(b: seq<byte>, code: nat, t: seq<byte>)
    requires IsVarint(b, code)
    ensures NextUnit(StatusCode, b + t) == StatusUnit(code, t)
    ensures NextUnit(Framing, b + t) == if code == 3 then Unit([], StatusCode, t) else Malformed
  {
    hide Read, IsVarint;
    NotEmpty(b, code);
    ReadExactly(b, code, t);
  }

  lemma EntryIsTaken(sec: Section, b: seq<byte>, events: seq<Event>, next: Section, t: seq<byte>)
    requires EntryIs(sec, b, events, next)
    ensures NextUnit(sec, b + t) == Unit(events, next, t)
  {
    hide NextUnit, IsVarint, FieldIs, ChunkIs, ControlIs;
    match sec
    case Control =>
      var c :| ControlIs(b, c) && events == [OnControlData(c)];
      ControlIsRead(b, c, t);
    case Framing => StatusIsRead(b, 3, t);
    case StatusCode =>
      var code: nat :| IsVarint(b, code) &&
        (|| (100 <= code <= 199 && events == [OnInformationalStatusCode(code)] && next == InformationalHeader)
         || (200 <= code <= 599 && next == FinalHeader
             && events == [OnInformationalSectionDone, OnFinalStatusCode(code)]));
      StatusIsRead(b, code, t);
    case Body =>
      if IsVarint(b, 0) && events == [OnBodyChunksDone] && next == Trailer {
        ZeroIsRead(Body, b, t);
      } else {
        var c :| ChunkIs(b, c) && events == [OnBodyChunk(c)] && next == Body;
        ChunkIsRead(b, c, t);
      }
    case Padding => ZeroByteIsRead(t);
    case _ => FieldEntryIsRead(sec, b, events, next, t);
  }

  lemma ZeroByteIsRead(t: seq<byte>)
    ensures NextUnit(Padding, [0] + t) == Unit([], Padding, t)
  {
    assert ([0] + t)[1..] == t;
  }

  // ---------------------------------------------------------------------------------------------
  // What is taken is an entry

  lemma ControlWasRead(s: seq<byte>) returns (b: seq<byte>)
    requires NextUnit(Control, s).Unit?
    ensures var u := NextUnit(Control, s); EntryIs(Control, b, u.events, u.next) && s == b + u.rest
  {
    hide Read, IsVarint, StringIs, ReadControlData;
    var f := ReadIsVarint(s);
    var s1 := Read(s).rest;
    var b1, b2, b3, b4 := FourStringsWereRead(s1);
    var c, rest := ReadControlData(s1).value, ReadControlData(s1).rest;
    ControlFrom(f, b1, b2, b3, b4, c);
    hide ControlIs;
    b := f + (b1 + (b2 + (b3 + b4)));
    assert s == b + rest;
  }

  lemma ControlFrom(f: seq<byte>, b1: seq<byte>, b2: seq<byte>, b3: seq<byte>, b4: seq<byte>, c: ControlData)
    requires IsVarint(f, 2) && StringIs(b1, c.verb) && StringIs(b2, c.scheme)
    requires StringIs(b3, c.authority) && StringIs(b4, c.path)
    ensures ControlIs(f + (b1 + (b2 + (b3 + b4))), c)
  {
    hide IsVarint, StringIs;
  }

  lemma FourStringsWereRead(s1: seq<byte>) returns (b1: seq<byte>, b2: seq<byte>, b3: seq<byte>, b4: seq<byte>)
    requires ReadControlData(s1).Got?
    ensures var Got(c, rest) := ReadControlData(s1);
            && StringIs(b1, c.verb) && StringIs(b2, c.scheme) && StringIs(b3, c.authority) && StringIs(b4, c.path)
            && s1 == b1 + (b2 + (b3 + (b4 + rest)))
  {
    hide ReadString, StringIs;
    b1 := StringWasRead(s1);
    var s2 := ReadString(s1).rest;
    assert ReadStrings(s2, 3).Got?;
    b2 := StringWasRead(s2);
    var s3 := ReadString(s2).rest;
    assert ReadStrings(s3, 2).Got?;
    b3 := StringWasRead(s3);
    var s4 := ReadString(s3).rest;
    assert ReadStrings(s4, 1).Got?;
    b4 := StringWasRead(s4);
    var rest := ReadString(s4).rest;
    assert ReadStrings(rest, 0) == Got([], rest);
    var v1, v2, v3, v4 := ReadString(s1).value, ReadString(s2).value, ReadString(s3).value, ReadString(s4).value;
    assert ReadStrings(s4, 1) == Got([v4] + [], rest);
    assert ReadStrings(s3, 2) == Got([v3] + ([v4] + []), rest);
    assert ReadStrings(s2, 3) == Got([v2] + ([v3] + ([v4] + [])), rest);
    assert ReadStrings(s1, 4) == Got([v1] + ([v2] + ([v3] + ([v4] + []))), rest);
  }

  lemma FieldWasRead(sec: Section, s: seq<byte>) returns (b: seq<byte>, f: Field)
    requires IsFieldSection(sec) && NextUnit(sec, s).Unit? && Read(s).Got? && Read(s).value != 0
    ensures var u := NextUnit(sec, s);
            FieldIs(b, f) && u.events == [FieldEvent(sec, f)] && u.next == sec && s == b + u.rest
  {
    hide Read, IsVarint, StringIs, NextUnit, EntryUnit, ReadField, FieldIs;
    var n := ReadIsVarint(s);
    var length, s1 := Read(s).value, Read(s).rest;
    TerminatedUnit(sec, s);
    FieldEntry(sec, length, s1);
    var v := ReadFieldWas(s1, length);
    f := ReadField(s1, length).value;
    b := n + (f.name + v);
    FieldFrom(n, v, f);
    assert s == b + ReadField(s1, length).rest;
  }

  lemma ReadFieldWas(s: seq<byte>, length: nat) returns (v: seq<byte>)
    requires ReadField(s, length).Got?
    ensures var Got(f, rest) := ReadField(s, length);
            |f.name| == length && StringIs(v, f.value) && s == f.name + (v + rest)
  {
    hide ReadString, StringIs;
    v := StringWasRead(s[length..]);
    assert s == s[..length] + s[length..];
  }

  lemma FieldFrom(n: seq<byte>, v: seq<byte>, f: Field)
    requires f.name != [] && IsVarint(n, |f.name|) && StringIs(v, f.value)
    ensures FieldIs(n + (f.name + v), f)
  {
    hide IsVarint, StringIs;
  }

  lemma ChunkWasRead(s: seq<byte>) returns (b: seq<byte>, c: seq<byte>)
    requires NextUnit(Body, s).Unit? && Read(s).value != 0
    ensures var u := NextUnit(Body, s);
            ChunkIs(b, c) && u.events == [OnBodyChunk(c)] && u.next == Body && s == b + u.rest
  {
    hide Read, IsVarint;
    var l := ReadIsVarint(s);
    var n, s1 := Read(s).value, Read(s).rest;
    c := s1[..n];
    b := l + c;
    assert s1 == c + s1[n..];
    assert s == b + s1[n..];
  }

  lemma ZeroWasRead(sec: Section, s: seq<byte>) returns (b: seq<byte>)
    requires IsTerminated(sec) && Read(s).Got? && Read(s).value == 0
    ensures IsVarint(b, 0) && s == b + Read(s).rest
    ensures NextUnit(sec, s) == Unit([DoneEvent(sec)], After(sec), Read(s).rest)
  {
    hide Read, IsVarint;
    b := ReadIsVarint(s);
  }

  lemma NumberWasRead(sec: Section, s: seq<byte>) returns (b: seq<byte>)
    requires (sec.Framing? || sec.StatusCode?) && NextUnit(sec, s).Unit?
    ensures var u := NextUnit(sec, s); EntryIs(sec, b, u.events, u.next) && s == b + u.rest
  {
    hide Read, IsVarint;
    b := ReadIsVarint(s);
  }

  lemma TerminatedWasRead(sec: Section, s: seq<byte>) returns (b: seq<byte>)
    requires IsTerminated(sec) && NextUnit(sec, s).Unit?
    ensures var u := NextUnit(sec, s); EntryIs(sec, b, u.events, u.next) && s == b + u.rest
  {
    SomethingWasRead(sec, s);
    hide NextUnit, Read, IsVarint, FieldIs, ChunkIs;
    if Read(s).value == 0 {
      b := ZeroWasRead(sec, s);
    } else if sec.Body? {
      var c;
      b, c := ChunkWasRead(s);
    } else {
      var f;
      b, f := FieldWasRead(sec, s);
    }
  }

  lemma SomethingWasRead(sec: Section, s: seq<byte>)
    requires IsTerminated(sec) && NextUnit(sec, s).Unit?
    ensures Read(s).Got?
  {
    hide Read;
  }

  lemma TakenIsEntry(sec: Section, s: seq<byte>) returns (b: seq<byte>)
    requires NextUnit(sec, s).Unit?
    ensures var u := NextUnit(sec, s); EntryIs(sec, b, u.events, u.next) && s == b + u.rest
  {
    if sec.Control? {
      b := ControlWasRead(s);
    } else if sec.Framing? || sec.StatusCode? {
      b := NumberWasRead(sec, s);
    } else if sec.Padding? {
      b := [0];
      assert s == [s[0]] + s[1..];
    } else {
      hide NextUnit, EntryIs;
      b := TerminatedWasRead(sec, s);
    }
  }

  /** The next unit is taken if and only if an entry of the section is in front, and it is this entry. */
  lemma UnitExactly(sec: Section, s: seq<byte>, events: seq<Event>, next: Section, rest: seq<byte>)
    ensures NextUnit(sec, s) == Unit(events, next, rest)
            <==> exists b: seq<byte> :: EntryIs(sec, b, events, next) && s == b + rest
  {
    hide NextUnit, EntryIs;
    if NextUnit(sec, s) == Unit(events, next, rest) {
      var b := TakenIsEntry(sec, s);
    }
    forall b: seq<byte> | EntryIs(sec, b, events, next) && s == b + rest
      ensures NextUnit(sec, s) == Unit(events, next, rest)
    {
      EntryIsTaken(sec, b, events, next, rest);
    }
  }

  lemma FirstNumber(s: seq<byte>, n: nat, v: nat)
    requires n <= |s| && IsVarint(s[..n], v)
    ensures Read(s).Got? && Read(s).value == v
  {
    hide Read, IsVarint;
    NotEmpty(s[..n], v);
    ReadExactly(s[..n], v, s[n..]);
    assert s[..n] + s[n..] == s;
  }

  lemma NumberInFront(s: seq<byte>) returns (n: nat)
    requires Read(s).Got?
    ensures n <= |s| && IsVarint(s[..n], Read(s).value)
  {
    hide Read, IsVarint;
    var b := ReadIsVarint(s);
    n := |b|;
    assert s[..n] == b;
  }

  /** The stream is rejected if and only if what is in front is wrong for the section. */
  lemma MalformedExactly(sec: Section, s: seq<byte>)
    ensures NextUnit(sec, s).Malformed? <==> Wrong(sec, s)
  {
    hide Read, IsVarint, ReadControlData, ReadField;
    if sec.Control? || sec.Framing? || sec.StatusCode? {
      if Read(s).Got? {
        var n := NumberInFront(s);
      }
      forall n: nat, v: nat | n <= |s| && IsVarint(s[..n], v) ensures Read(s).Got? && Read(s).value == v {
        FirstNumber(s, n, v);
      }
    }
  }
}
