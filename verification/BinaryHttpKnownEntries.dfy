/** What the bytes of a known-length Binary HTTP message are, said of the bytes alone (RFC 9292, sections 3.3 to 3.8),
    and that the decoder accepts exactly these. */
module BinaryHttpKnownEntries {
  import opened Bytes
  import opened Sequences
  import opened VarInt62
  import opened BinaryHttpStream
  import opened BinaryHttpEncoder
  import opened BinaryHttpKnownLength
  import opened BinaryHttpEntries

  // ---------------------------------------------------------------------------------------------
  // The bytes

  /** Capital letters become small ones, and everything else stays. */
  predicate IsLowered(name: seq<byte>, lower: seq<byte>) {
    && |name| == |lower|
    && forall i :: 0 <= i < |name| ==> lower[i] == if 0x41 <= name[i] <= 0x5a then name[i] + 0x20 else name[i]
  }

  /** A name and a value, of which both may be empty. */
  ghost predicate LineIs(b: seq<byte>, f: Field) {
    exists name: seq<byte>, b1: seq<byte>, b2: seq<byte> ::
      IsLowered(name, f.name) && StringIs(b1, name) && StringIs(b2, f.value) && b == b1 + b2
  }

  ghost predicate LinesOf(parts: seq<seq<byte>>, fields: seq<Field>) {
    |parts| == |fields| && forall i :: 0 <= i < |fields| ==> LineIs(parts[i], fields[i])
  }

  /** A length, and exactly so many bytes that are fields. */
  ghost predicate SectionIs(b: seq<byte>, fields: seq<Field>) {
    exists parts: seq<seq<byte>> :: LinesOf(parts, fields) && StringIs(b, Concat(parts))
  }

  /** Fields, and then nothing, or a body and zeros. */
  ghost predicate ContentIs(s: seq<byte>, c: Content) {
    || (SectionIs(s, c.fields) && c.body == [] && c.padding == 0)
    || exists b1: seq<byte>, b2: seq<byte>, zeros: seq<byte> ::
         && SectionIs(b1, c.fields) && StringIs(b2, c.body)
         && |zeros| == c.padding && (forall i :: 0 <= i < |zeros| ==> zeros[i] == 0)
         && s == b1 + (b2 + zeros)
  }

  /** A framing indicator of 0, method, scheme, authority and path, and then nothing or content. */
  ghost predicate RequestIs(s: seq<byte>, r: Request) {
    exists f: seq<byte>, b1: seq<byte>, b2: seq<byte>, b3: seq<byte>, b4: seq<byte>, rest: seq<byte> ::
      && IsVarint(f, 0) && StringIs(b1, r.control.verb) && StringIs(b2, r.control.scheme)
      && StringIs(b3, r.control.authority) && StringIs(b4, r.control.path)
      && (if rest == [] then r.content == Content([], [], 0) else ContentIs(rest, r.content))
      && s == f + (b1 + (b2 + (b3 + (b4 + rest))))
  }

  /** A status code from 100 to 199, and fields. */
  ghost predicate InformationalIs(b: seq<byte>, info: Informational) {
    && 100 <= info.code <= 199
    && exists b1: seq<byte>, b2: seq<byte> ::
         IsVarint(b1, info.code) && SectionIs(b2, info.fields) && b == b1 + b2
  }

  ghost predicate InformationalsOf(parts: seq<seq<byte>>, infos: seq<Informational>) {
    |parts| == |infos| && forall i :: 0 <= i < |infos| ==> InformationalIs(parts[i], infos[i])
  }

  /** A framing indicator of 1, informational responses, another status code, and content.  Of the status code the low
      sixteen bits are kept. */
  ghost predicate ResponseIs(s: seq<byte>, r: Response) {
    exists f: seq<byte>, parts: seq<seq<byte>>, b: seq<byte>, code: nat, rest: seq<byte> ::
      && IsVarint(f, 1) && InformationalsOf(parts, r.informational)
      && IsVarint(b, code) && !(100 <= code <= 199) && r.code == code % 0x1_0000
      && ContentIs(rest, r.content)
      && s == f + (Concat(parts) + (b + rest))
  }

  // ---------------------------------------------------------------------------------------------
  // Fields

  lemma LoweredIsLower(name: seq<byte>, lower: seq<byte>)
    ensures IsLowered(name, lower) <==> lower == Lower(name)
  {
    if IsLowered(name, lower) {
      assert lower == Lower(name);
    }
  }

  lemma LineIsRead(b: seq<byte>, f: Field, t: seq<byte>)
    requires LineIs(b, f)
    ensures b != []
    ensures ParseList(b + t) == if ParseList(t).None? then None else Some([f] + ParseList(t).value)
  {
    hide ReadString, StringIs, Lower, IsLowered;
    var name: seq<byte>, b1: seq<byte>, b2: seq<byte> :|
      IsLowered(name, f.name) && StringIs(b1, name) && StringIs(b2, f.value) && b == b1 + b2;
    LoweredIsLower(name, f.name);
    StringIsRead(b1, name, b2 + t);
    StringIsRead(b2, f.value, t);
    assert b + t == b1 + (b2 + t);
    assert f == Field(Lower(name), f.value);
  }

  lemma LinesTail(parts: seq<seq<byte>>, fields: seq<Field>)
    requires LinesOf(parts, fields) && parts != []
    ensures LineIs(parts[0], fields[0]) && LinesOf(parts[1..], fields[1..])
    ensures Concat(parts) == parts[0] + Concat(parts[1..]) && fields == [fields[0]] + fields[1..]
  {
    hide LineIs;
  }

  lemma LinesCons(b: seq<byte>, f: Field, parts: seq<seq<byte>>, fields: seq<Field>)
    requires LineIs(b, f) && LinesOf(parts, fields)
    ensures LinesOf([b] + parts, [f] + fields) && Concat([b] + parts) == b + Concat(parts)
  {
    hide LineIs;
    assert ([b] + parts)[1..] == parts;
  }

  lemma NoLines()
    ensures LinesOf([], []) && Concat<byte>([]) == [] && ParseList([]) == Some([])
  {
  }

  lemma {:induction false} LinesAreRead(parts: seq<seq<byte>>, fields: seq<Field>)
    requires LinesOf(parts, fields)
    ensures ParseList(Concat(parts)) == Some(fields)
    decreases |parts|
  {
    hide LineIs, ParseList, Concat;
    if parts == [] {
      NoLines();
      assert fields == [];
    } else {
      LinesTail(parts, fields);
      LinesAreRead(parts[1..], fields[1..]);
      LineIsRead(parts[0], fields[0], Concat(parts[1..]));
    }
  }

  /** The first field of a list. */
  lemma LineWasRead(s: seq<byte>) returns (b: seq<byte>, f: Field, t: seq<byte>)
    requires s != [] && ParseList(s).Some?
    ensures LineIs(b, f) && s == b + t && |t| < |s|
    ensures ParseList(t).Some? && ParseList(s).value == [f] + ParseList(t).value
  {
    hide ReadString, StringIs, Lower, IsLowered;
    var b1 := StringWasRead(s);
    var Got(name, s1) := ReadString(s);
    var b2 := StringWasRead(s1);
    var Got(value, s2) := ReadString(s1);
    LoweredIsLower(name, Lower(name));
    b, f, t := b1 + b2, Field(Lower(name), value), s2;
    assert s == b + t;
  }

  lemma {:induction false} LinesWereRead(s: seq<byte>) returns (parts: seq<seq<byte>>)
    requires ParseList(s).Some?
    ensures LinesOf(parts, ParseList(s).value) && s == Concat(parts)
    decreases |s|
  {
    hide LineIs, LinesOf, ParseList, Concat;
    if s == [] {
      parts := [];
      NoLines();
    } else {
      var b, f, t := LineWasRead(s);
      var others := LinesWereRead(t);
      parts := [b] + others;
      LinesCons(b, f, others, ParseList(t).value);
    }
  }

  lemma SectionIsRead(b: seq<byte>, fields: seq<Field>, t: seq<byte>)
    requires SectionIs(b, fields)
    ensures b != [] && ParseSizedList(b + t) == Some((fields, t))
  {
    hide ReadString, StringIs, LinesOf, ParseList, Concat;
    var parts: seq<seq<byte>> :| LinesOf(parts, fields) && StringIs(b, Concat(parts));
    StringIsRead(b, Concat(parts), t);
    LinesAreRead(parts, fields);
  }

  lemma SectionWasRead(s: seq<byte>) returns (b: seq<byte>)
    requires ParseSizedList(s).Some?
    ensures var (fields, rest) := ParseSizedList(s).value; SectionIs(b, fields) && s == b + rest
  {
    hide ReadString, StringIs, LinesOf, ParseList, Concat;
    b := StringWasRead(s);
    var parts := LinesWereRead(ReadString(s).value);
  }

  // ---------------------------------------------------------------------------------------------
  // Content

  lemma ContentIsRead(s: seq<byte>, c: Content)
    requires ContentIs(s, c)
    ensures s != [] && ParseContent(s) == Some(c)
  {
    hide ReadString, StringIs, SectionIs, ParseSizedList;
    if SectionIs(s, c.fields) && c.body == [] && c.padding == 0 {
      SectionIsRead(s, c.fields, []);
      assert s + [] == s;
    } else {
      var b1: seq<byte>, b2: seq<byte>, zeros: seq<byte> :|
        && SectionIs(b1, c.fields) && StringIs(b2, c.body)
        && |zeros| == c.padding && (forall i :: 0 <= i < |zeros| ==> zeros[i] == 0)
        && s == b1 + (b2 + zeros);
      SectionIsRead(b1, c.fields, b2 + zeros);
      StringIsRead(b2, c.body, zeros);
    }
  }

  lemma ContentWasRead(s: seq<byte>)
    requires ParseContent(s).Some?
    ensures ContentIs(s, ParseContent(s).value)
  {
    hide ReadString, StringIs, SectionIs, ParseSizedList;
    var b1 := SectionWasRead(s);
    var rest := ParseSizedList(s).value.1;
    if rest == [] {
      assert s == b1;
    } else {
      var b2 := StringWasRead(rest);
      var zeros := ReadString(rest).rest;
      assert s == b1 + (b2 + zeros);
    }
  }

  // ---------------------------------------------------------------------------------------------
  // Requests

  lemma RequestIsRead(s: seq<byte>, r: Request)
    requires RequestIs(s, r)
    ensures ParseRequest(s) == Some(r)
  {
    hide Read, IsVarint, StringIs, ContentIs, ParseContent, ReadControlData;
    var f: seq<byte>, b1: seq<byte>, b2: seq<byte>, b3: seq<byte>, b4: seq<byte>, rest: seq<byte> :|
      && IsVarint(f, 0) && StringIs(b1, r.control.verb) && StringIs(b2, r.control.scheme)
      && StringIs(b3, r.control.authority) && StringIs(b4, r.control.path)
      && (if rest == [] then r.content == Content([], [], 0) else ContentIs(rest, r.content))
      && s == f + (b1 + (b2 + (b3 + (b4 + rest))));
    NotEmpty(f, 0);
    ReadExactly(f, 0, b1 + (b2 + (b3 + (b4 + rest))));
    FourStringsRead(b1, b2, b3, b4, r.control, rest);
    if rest != [] {
      ContentIsRead(rest, r.content);
    }
    assert r == Request(r.control, r.content);
  }

  lemma RequestWasRead(s: seq<byte>)
    requires ParseRequest(s).Some?
    ensures RequestIs(s, ParseRequest(s).value)
  {
    hide Read, IsVarint, StringIs, ContentIs, ParseContent, ReadControlData;
    var f := ReadIsVarint(s);
    var s1 := Read(s).rest;
    var b1, b2, b3, b4 := FourStringsWereRead(s1);
    var rest := ReadControlData(s1).rest;
    if rest != [] {
      ContentWasRead(rest);
    }
    assert s == f + (b1 + (b2 + (b3 + (b4 + rest))));
  }

  /** A request is decoded if and only if its bytes are those of a request, and as exactly this request. */
  lemma RequestExactly(s: seq<byte>, r: Request)
    ensures ParseRequest(s) == Some(r) <==> RequestIs(s, r)
  {
    hide ParseRequest, RequestIs;
    if ParseRequest(s) == Some(r) {
      RequestWasRead(s);
    }
    if RequestIs(s, r) {
      RequestIsRead(s, r);
    }
  }

  // ---------------------------------------------------------------------------------------------
  // Responses

  /** The first status code that is not informational. */
  lemma FinalIsRead(b: seq<byte>, code: nat, rest: seq<byte>)
    requires IsVarint(b, code) && !(100 <= code <= 199)
    ensures ParseInformational(b + rest) == Some(([], code, rest))
  {
    hide Read, IsVarint, ParseSizedList;
    NotEmpty(b, code);
    ReadExactly(b, code, rest);
  }

  lemma InformationalIsRead(b: seq<byte>, info: Informational, t: seq<byte>)
    requires InformationalIs(b, info) && ParseInformational(t).Some?
    ensures var (others, code, rest) := ParseInformational(t).value;
            ParseInformational(b + t) == Some(([info] + others, code, rest))
  {
    hide Read, IsVarint, SectionIs, ParseSizedList;
    var b1: seq<byte>, b2: seq<byte> :| IsVarint(b1, info.code) && SectionIs(b2, info.fields) && b == b1 + b2;
    NotEmpty(b1, info.code);
    ReadExactly(b1, info.code, b2 + t);
    SectionIsRead(b2, info.fields, t);
    assert b + t == b1 + (b2 + t);
    assert info == Informational(info.code, info.fields);
  }

  lemma {:induction false} InformationalsAreRead(parts: seq<seq<byte>>, infos: seq<Informational>, b: seq<byte>,
                                                 code: nat, rest: seq<byte>)
    requires InformationalsOf(parts, infos) && IsVarint(b, code) && !(100 <= code <= 199)
    ensures ParseInformational(Concat(parts) + (b + rest)) == Some((infos, code, rest))
    decreases |parts|
  {
    hide InformationalIs, IsVarint, ParseInformational;
    if parts == [] {
      FinalIsRead(b, code, rest);
      assert Concat(parts) + (b + rest) == b + rest;
    } else {
      InformationalsAreRead(parts[1..], infos[1..], b, code, rest);
      var tail := Concat(parts[1..]) + (b + rest);
      InformationalIsRead(parts[0], infos[0], tail);
      assert Concat(parts) + (b + rest) == parts[0] + tail;
      assert infos == [infos[0]] + infos[1..];
    }
  }

  /** Either the status code in front is final, or it begins an informational response. */
  lemma StatusWasRead(s: seq<byte>) returns (b: seq<byte>, info: Informational, t: seq<byte>)
    requires ParseInformational(s).Some?
    ensures var (infos, code, rest) := ParseInformational(s).value;
            if infos == [] then IsVarint(b, code) && !(100 <= code <= 199) && s == b + rest
            else
              && InformationalIs(b, info) && s == b + t && |t| < |s| && ParseInformational(t).Some?
              && ParseInformational(t).value == (infos[1..], code, rest) && infos[0] == info
  {
    hide Read, IsVarint, SectionIs, ParseSizedList;
    b := ReadIsVarint(s);
    var Got(code, s1) := Read(s);
    info, t := Informational(0, []), s1;
    if 100 <= code <= 199 {
      var b2 := SectionWasRead(s1);
      info, t := Informational(code, ParseSizedList(s1).value.0), ParseSizedList(s1).value.1;
      b := b + b2;
      assert s == b + t;
    }
  }

  lemma {:induction false} InformationalsWereRead(s: seq<byte>) returns (parts: seq<seq<byte>>, b: seq<byte>)
    requires ParseInformational(s).Some?
    ensures var (infos, code, rest) := ParseInformational(s).value;
            && InformationalsOf(parts, infos) && IsVarint(b, code) && !(100 <= code <= 199)
            && s == Concat(parts) + (b + rest)
    decreases |s|
  {
    hide InformationalIs, IsVarint, ParseInformational;
    var b0, info, t := StatusWasRead(s);
    var (infos, code, rest) := ParseInformational(s).value;
    if infos == [] {
      parts, b := [], b0;
      assert s == Concat(parts) + (b + rest);
    } else {
      var others;
      others, b := InformationalsWereRead(t);
      parts := [b0] + others;
      assert parts[1..] == others;
      assert s == Concat(parts) + (b + rest);
    }
  }

  lemma ResponseIsRead(s: seq<byte>, r: Response)
    requires ResponseIs(s, r)
    ensures ParseResponse(s) == Some(r)
  {
    hide Read, IsVarint, InformationalsOf, ContentIs, ParseContent, ParseInformational, Concat;
    var f: seq<byte>, parts: seq<seq<byte>>, b: seq<byte>, code: nat, rest: seq<byte> :|
      && IsVarint(f, 1) && InformationalsOf(parts, r.informational)
      && IsVarint(b, code) && !(100 <= code <= 199) && r.code == code % 0x1_0000
      && ContentIs(rest, r.content)
      && s == f + (Concat(parts) + (b + rest));
    NotEmpty(f, 1);
    ReadExactly(f, 1, Concat(parts) + (b + rest));
    InformationalsAreRead(parts, r.informational, b, code, rest);
    ContentIsRead(rest, r.content);
    assert r == Response(r.informational, r.code, r.content);
  }

  lemma ResponseWasRead(s: seq<byte>)
    requires ParseResponse(s).Some?
    ensures ResponseIs(s, ParseResponse(s).value)
  {
    hide Read, IsVarint, InformationalsOf, ContentIs, ParseContent, ParseInformational, Concat;
    var f := ReadIsVarint(s);
    var s1 := Read(s).rest;
    var parts, b := InformationalsWereRead(s1);
    var (infos, code, rest) := ParseInformational(s1).value;
    ContentWasRead(rest);
    assert s == f + (Concat(parts) + (b + rest));
  }

  /** The same of a response. */
  lemma ResponseExactly(s: seq<byte>, r: Response)
    ensures ParseResponse(s) == Some(r) <==> ResponseIs(s, r)
  {
    hide ParseResponse, ResponseIs;
    if ParseResponse(s) == Some(r) {
      ResponseWasRead(s);
    }
    if ResponseIs(s, r) {
      ResponseIsRead(s, r);
    }
  }
}
