/** The texts of lists and dictionaries, with any white space around their commas, and that the parser takes exactly
    these (RFC 8941, sections 3.1 and 3.2). */
module StructuredFieldListTexts {
  import opened Bytes
  import opened Sequences
  import opened StructuredFields
  import opened StructuredFieldText
  import opened StructuredFieldItems
  import opened StructuredFieldRoundTrip
  import opened StructuredFieldBareTexts
  import opened T = StructuredFieldMemberTexts

  // ---------------------------------------------------------------------------------------------
  // Texts

  /** A comma with spaces and tabs before and after it. */
  ghost predicate IsComma(s: string) {
    exists before: string, after: string :: Gap(before) && Gap(after) && s == before + ("," + after)
  }

  ghost predicate Commas(seps: seq<string>) {
    forall i :: 0 <= i < |seps| ==> IsComma(seps[i])
  }

  ghost predicate MembersAre(codec: Codec, texts: seq<string>, ms: Members) {
    |texts| == |ms| && forall i :: 0 <= i < |ms| ==> MemberIs(codec, texts[i], ms[i])
  }

  /** What comes behind a key: parameters of a value that is true, or a member. */
  ghost predicate EntryValueIs(codec: Codec, b: string, m: Member) {
    || (m == SingleItem(Boolean(true), m.params) && ParametersAre(codec, b, m.params))
    || exists x: string :: MemberIs(codec, x, m) && b == "=" + x
  }

  ghost predicate EntryIs(codec: Codec, b: string, e: (string, Member)) {
    IsKey(e.0) && exists v: string :: EntryValueIs(codec, v, e.1) && b == e.0 + v
  }

  ghost predicate EntriesAre(codec: Codec, texts: seq<string>, raw: Dictionary) {
    |texts| == |raw| && forall i :: 0 <= i < |raw| ==> EntryIs(codec, texts[i], raw[i])
  }

  /** How texts are laid out: spaces in front, a comma between any two, white space behind; without any text there
      can only be spaces. */
  ghost predicate LaidOut(s: string, texts: seq<string>) {
    exists lead: string, seps: seq<string>, trail: string ::
      && Spaces(lead) && Fits(texts, seps) && Commas(seps) && Gap(trail) && (texts == [] ==> trail == "")
      && s == lead + (Joined(texts, seps) + trail)
  }

  /** The text of a list. */
  ghost predicate ListIs(codec: Codec, s: string, ms: Members) {
    exists texts: seq<string> :: MembersAre(codec, texts, ms) && LaidOut(s, texts)
  }

  /** The text of a dictionary; keys that come more than once are merged. */
  ghost predicate DictionaryIs(codec: Codec, s: string, d: Dictionary) {
    exists texts: seq<string>, raw: Dictionary ::
      EntriesAre(codec, texts, raw) && LaidOut(s, texts) && d == Merged(raw)
  }

  /** The text of an item that is the whole field: there are only spaces around it. */
  ghost predicate ItemFieldIs(codec: Codec, s: string, item: ParameterizedItem) {
    exists lead: string, b: string, trail: string ::
      Spaces(lead) && ItemIs(codec, b, item) && Spaces(trail) && s == lead + (b + trail)
  }

  // ---------------------------------------------------------------------------------------------
  // Commas

  predicate Starts(s: string) {
    s != [] && s[0] !in " \t,"
  }

  lemma CommaIsRead(sep: string, t: string)
    requires IsComma(sep) && Starts(t)
    ensures AfterMember(sep + t) == Some(t) && Done(sep + t)
  {
    hide Gap, Skip;
    var before: string, after: string :| Gap(before) && Gap(after) && sep == before + ("," + after);
    var u := "," + (after + t);
    assert sep + t == before + u;
    SkipGap(before, u);
    assert u[1..] == after + t;
    SkipGap(after, t);
    GapDone(before, u);
  }

  lemma GapDone(gap: string, s: string)
    requires Gap(gap) && Done(s)
    ensures Done(gap + s)
  {
    if gap == [] {
      assert gap + s == s;
    } else {
      assert (gap + s)[0] == gap[0];
    }
  }

  lemma EndIsRead(trail: string)
    requires Gap(trail)
    ensures AfterMember(trail) == Some([]) && Done(trail)
  {
    assert trail + [] == trail;
    SkipGap(trail, []);
    GapDone(trail, []);
  }

  lemma CommaWasRead(s: string) returns (sep: string)
    requires AfterMember(s).Some?
    ensures var t := AfterMember(s).value; if t == [] then Gap(s) else IsComma(sep) && s == sep + t
  {
    hide Gap, Skip;
    var before := SkippedGap(s);
    var u := Skip(s, IsOws);
    sep := "";
    if u == [] {
      assert s == before;
    } else {
      var after := SkippedGap(u[1..]);
      sep := before + ("," + after);
      assert u == "," + u[1..];
      assert s == sep + Skip(u[1..], IsOws);
    }
  }

  // ---------------------------------------------------------------------------------------------
  // Lists

  lemma MembersTail(codec: Codec, texts: seq<string>, seps: seq<string>, ms: Members)
    requires MembersAre(codec, texts, ms) && Fits(texts, seps) && Commas(seps) && |ms| > 1
    ensures MemberIs(codec, texts[0], ms[0]) && MembersAre(codec, texts[1..], ms[1..])
    ensures Fits(texts[1..], seps[1..]) && IsComma(seps[0]) && Commas(seps[1..])
  {
    hide MemberIs, IsComma;
  }

  lemma MembersStart(codec: Codec, texts: seq<string>, seps: seq<string>, ms: Members, trail: string)
    requires MembersAre(codec, texts, ms) && Fits(texts, seps) && ms != []
    ensures Starts(Joined(texts, seps) + trail)
  {
    T.MemberBegins(codec, texts[0], ms[0]);
    hide MemberIs;
    JoinedFirst(texts, seps);
  }

  lemma ReadListStep(codec: Codec, b: string, m: Member, tail: string)
    requires MemberIs(codec, b, m) && Done(tail) && AfterMember(tail).Some?
    requires ReadList(codec, AfterMember(tail).value).Some?
    ensures ReadList(codec, b + tail) == Some([m] + ReadList(codec, AfterMember(tail).value).value)
  {
    MemberIsRead(codec, b, m, tail);
    T.MemberBegins(codec, b, m);
    hide MemberIs, ReadMember, AfterMember, Done;
  }

  lemma OneMemberIsRead(codec: Codec, b: string, m: Member, trail: string)
    requires MemberIs(codec, b, m) && Gap(trail)
    ensures ReadList(codec, b + trail) == Some([m])
  {
    hide MemberIs, AfterMember, Gap, Done, ReadList;
    EndIsRead(trail);
    NoList(codec);
    ReadListStep(codec, b, m, trail);
    assert [m] + [] == [m];
  }

  lemma {:induction false} ListIsRead(codec: Codec, texts: seq<string>, seps: seq<string>, trail: string, ms: Members)
    requires MembersAre(codec, texts, ms) && Fits(texts, seps) && Commas(seps) && Gap(trail) && ms != []
    ensures ReadList(codec, Joined(texts, seps) + trail) == Some(ms)
    decreases |ms|
  {
    hide MemberIs, AfterMember, Gap, Done, Starts, Commas, ReadList, Joined;
    if |ms| == 1 {
      OneMemberIsRead(codec, texts[0], ms[0], trail);
      OneText(texts[0]);
      assert texts == [texts[0]] && ms == [ms[0]] && seps == [];
    } else {
      MembersTail(codec, texts, seps, ms);
      MembersStart(codec, texts[1..], seps[1..], ms[1..], trail);
      var others := Joined(texts[1..], seps[1..]) + trail;
      CommaIsRead(seps[0], others);
      ListIsRead(codec, texts[1..], seps[1..], trail, ms[1..]);
      ReadListStep(codec, texts[0], ms[0], seps[0] + others);
      JoinedStep(texts, seps, trail);
      assert [ms[0]] + ms[1..] == ms;
    }
  }

  lemma MembersCons(codec: Codec, b: string, m: Member, texts: seq<string>, ms: Members)
    requires MemberIs(codec, b, m) && MembersAre(codec, texts, ms)
    ensures MembersAre(codec, [b] + texts, [m] + ms)
  {
    hide MemberIs;
  }

  lemma CommasCons(sep: string, seps: seq<string>)
    requires IsComma(sep) && Commas(seps)
    ensures Commas([sep] + seps)
  {
    hide IsComma;
  }

  lemma OneText(b: string)
    ensures Fits([b], []) && Commas([]) && Joined([b], []) == b
  {
  }

  lemma {:induction false} ListWasRead(codec: Codec, s: string)
    returns (texts: seq<string>, seps: seq<string>, trail: string)
    requires ReadList(codec, s).Some?
    ensures MembersAre(codec, texts, ReadList(codec, s).value)
    ensures Fits(texts, seps) && Commas(seps) && Gap(trail) && (texts == [] ==> trail == "")
    ensures s == Joined(texts, seps) + trail
    decreases |s|
  {
    hide MemberIs, ReadMember, AfterMember, Commas;
    if s == [] {
      texts, seps, trail := [], [], "";
      OneText("");
    } else {
      hide Joined;
      var b := MemberWasRead(codec, s);
      var Ok(m, tail) := ReadMember(codec, s);
      var sep := CommaWasRead(tail);
      var t := AfterMember(tail).value;
      if t == [] {
        texts, seps, trail := [b], [], tail;
        OneText(b);
        assert ReadList(codec, s).value == [m];
      } else {
        var texts0, seps0, trail0 := ListWasRead(codec, t);
        var ms := ReadList(codec, t).value;
        NotEmpty(texts0, seps0, trail0, t);
        texts, seps, trail := [b] + texts0, [sep] + seps0, trail0;
        assert ReadList(codec, s).value == [m] + ms;
        hide ReadList;
        MembersCons(codec, b, m, texts0, ms);
        CommasCons(sep, seps0);
        JoinedCons(b, sep, texts0, seps0, trail0);
      }
    }
  }

  lemma NotEmpty(texts: seq<string>, seps: seq<string>, trail: string, s: string)
    requires Fits(texts, seps) && (texts == [] ==> trail == "") && s == Joined(texts, seps) + trail && s != []
    ensures texts != []
  {
  }

  lemma SkipLead(lead: string, s: string)
    requires Spaces(lead) && (s == [] || Starts(s))
    ensures Skip(lead + s, IsSpace) == s
  {
    SkipSpaces(lead, s);
  }

  /** A text is parsed as a list if and only if it is a text of that list. */
  lemma ListExactly(codec: Codec, s: string, ms: Members)
    ensures ParseList(codec, s) == Some(ms) <==> ListIs(codec, s, ms)
  {
    if ParseList(codec, s) == Some(ms) {
      ListWasParsed(codec, s);
    }
    if ListIs(codec, s, ms) {
      ListIsParsed(codec, s, ms);
    }
  }

  lemma ListWasParsed(codec: Codec, s: string)
    requires ParseList(codec, s).Some?
    ensures ListIs(codec, s, ParseList(codec, s).value)
  {
    hide ReadList, Skip, MembersAre, Fits, Joined, Gap, Spaces, Commas;
    var lead := SkippedSpaces(s);
    var texts, seps, trail := ListWasRead(codec, Skip(s, IsSpace));
    assert LaidOut(s, texts);
  }

  lemma ListIsParsed(codec: Codec, s: string, ms: Members)
    requires ListIs(codec, s, ms)
    ensures ParseList(codec, s) == Some(ms)
  {
    hide ReadList, Skip, MemberIs, Gap, Spaces, Commas, Starts;
    var texts: seq<string> :| MembersAre(codec, texts, ms) && LaidOut(s, texts);
    var lead: string, seps: seq<string>, trail: string :|
      && Spaces(lead) && Fits(texts, seps) && Commas(seps) && Gap(trail) && (texts == [] ==> trail == "")
      && s == lead + (Joined(texts, seps) + trail);
    var t := Joined(texts, seps) + trail;
    if ms == [] {
      assert t == [];
      NoList(codec);
    } else {
      MembersStart(codec, texts, seps, ms, trail);
      ListIsRead(codec, texts, seps, trail, ms);
    }
    SkipLead(lead, t);
  }

  lemma NoList(codec: Codec)
    ensures ReadList(codec, []) == Some([]) && ReadRawDictionary(codec, []) == Some([])
  {
  }

  // ---------------------------------------------------------------------------------------------
  // Dictionaries

  lemma EntryValueIsRead(codec: Codec, v: string, m: Member, rest: string)
    requires EntryValueIs(codec, v, m) && Done(rest)
    ensures ReadDictionaryValue(codec, v + rest) == Ok(m, rest)
    ensures Stops(v + rest) || (v + rest)[0] == '='
  {
    hide ParametersAre, MemberIs, ReadMember, ReadParameters, Done;
    if m == SingleItem(Boolean(true), m.params) && ParametersAre(codec, v, m.params) {
      ParametersAreRead(codec, v, m.params, rest);
    } else {
      var x: string :| MemberIs(codec, x, m) && v == "=" + x;
      MemberIsRead(codec, x, m, rest);
      assert v + rest == "=" + (x + rest);
      assert (v + rest)[1..] == x + rest;
    }
  }

  lemma EntryBeginsWithKey(codec: Codec, b: string, e: (string, Member))
    requires EntryIs(codec, b, e)
    ensures Starts(b)
  {
    hide EntryValueIs;
    assert IsKeyChar(e.0[0]);
  }

  lemma ReadDictionaryStep(codec: Codec, b: string, e: (string, Member), tail: string)
    requires EntryIs(codec, b, e) && Done(tail) && AfterMember(tail).Some?
    requires ReadRawDictionary(codec, AfterMember(tail).value).Some?
    ensures ReadRawDictionary(codec, b + tail) == Some([e] + ReadRawDictionary(codec, AfterMember(tail).value).value)
  {
    hide EntryValueIs, ReadDictionaryValue, AfterMember, Done, IsKey, ReadKey, Stops, Starts;
    var v: string :| EntryValueIs(codec, v, e.1) && b == e.0 + v;
    EntryValueIsRead(codec, v, e.1, tail);
    KeyIsRead(e.0, v + tail);
    assert b + tail == e.0 + (v + tail);
    assert e == (e.0, e.1);
  }

  lemma EntriesTail(codec: Codec, texts: seq<string>, seps: seq<string>, raw: Dictionary)
    requires EntriesAre(codec, texts, raw) && Fits(texts, seps) && Commas(seps) && |raw| > 1
    ensures EntryIs(codec, texts[0], raw[0]) && EntriesAre(codec, texts[1..], raw[1..])
    ensures Fits(texts[1..], seps[1..]) && IsComma(seps[0]) && Commas(seps[1..])
  {
    hide EntryIs, IsComma;
  }

  lemma EntriesStart(codec: Codec, texts: seq<string>, seps: seq<string>, raw: Dictionary, trail: string)
    requires EntriesAre(codec, texts, raw) && Fits(texts, seps) && raw != []
    ensures Starts(Joined(texts, seps) + trail)
  {
    EntryBeginsWithKey(codec, texts[0], raw[0]);
    hide EntryIs;
    JoinedFirst(texts, seps);
  }

  lemma OneEntryIsRead(codec: Codec, b: string, e: (string, Member), trail: string)
    requires EntryIs(codec, b, e) && Gap(trail)
    ensures ReadRawDictionary(codec, b + trail) == Some([e])
  {
    hide EntryIs, AfterMember, Gap, Done, ReadRawDictionary;
    EndIsRead(trail);
    NoList(codec);
    ReadDictionaryStep(codec, b, e, trail);
    assert [e] + [] == [e];
  }

  lemma {:induction false} DictionaryIsRead(codec: Codec, texts: seq<string>, seps: seq<string>, trail: string,
                                            raw: Dictionary)
    requires EntriesAre(codec, texts, raw) && Fits(texts, seps) && Commas(seps) && Gap(trail) && raw != []
    ensures ReadRawDictionary(codec, Joined(texts, seps) + trail) == Some(raw)
    decreases |raw|
  {
    hide EntryIs, AfterMember, Gap, Done, Starts, Commas, ReadRawDictionary, Joined;
    if |raw| == 1 {
      OneEntryIsRead(codec, texts[0], raw[0], trail);
      OneText(texts[0]);
      assert texts == [texts[0]] && raw == [raw[0]] && seps == [];
    } else {
      EntriesTail(codec, texts, seps, raw);
      EntriesStart(codec, texts[1..], seps[1..], raw[1..], trail);
      var others := Joined(texts[1..], seps[1..]) + trail;
      CommaIsRead(seps[0], others);
      DictionaryIsRead(codec, texts[1..], seps[1..], trail, raw[1..]);
      ReadDictionaryStep(codec, texts[0], raw[0], seps[0] + others);
      JoinedStep(texts, seps, trail);
      assert [raw[0]] + raw[1..] == raw;
    }
  }

  lemma EntryValueWasRead(codec: Codec, s: string) returns (v: string)
    requires ReadDictionaryValue(codec, s).Ok?
    ensures var Ok(m, rest) := ReadDictionaryValue(codec, s); EntryValueIs(codec, v, m) && s == v + rest
  {
    hide ParametersAre, MemberIs, ReadMember, ReadParameters;
    if StartsWith(s, '=') {
      var x := MemberWasRead(codec, s[1..]);
      v := "=" + x;
      assert s == "=" + s[1..];
      assert s == v + ReadMember(codec, s[1..]).rest;
    } else {
      v := ParametersWereRead(codec, s);
    }
  }

  lemma EntriesCons(codec: Codec, b: string, e: (string, Member), texts: seq<string>, raw: Dictionary)
    requires EntryIs(codec, b, e) && EntriesAre(codec, texts, raw)
    ensures EntriesAre(codec, [b] + texts, [e] + raw)
  {
    hide EntryIs;
  }

  /** The first entry of a dictionary. */
  lemma EntryWasRead(codec: Codec, s: string) returns (b: string, e: (string, Member), tail: string)
    requires s != [] && ReadRawDictionary(codec, s).Some?
    ensures EntryIs(codec, b, e) && s == b + tail && |tail| < |s| && AfterMember(tail).Some?
    ensures ReadRawDictionary(codec, AfterMember(tail).value).Some?
    ensures ReadRawDictionary(codec, s).value == [e] + ReadRawDictionary(codec, AfterMember(tail).value).value
  {
    hide ReadKey, ReadDictionaryValue, AfterMember, IsKey, EntryValueIs;
    KeyWasRead(s);
    var Ok(key, rest) := ReadKey(s);
    var v := EntryValueWasRead(codec, rest);
    var m := ReadDictionaryValue(codec, rest).value;
    tail := ReadDictionaryValue(codec, rest).rest;
    b, e := key + v, (key, m);
    assert s == b + tail;
  }

  lemma {:induction false} DictionaryWasRead(codec: Codec, s: string)
    returns (texts: seq<string>, seps: seq<string>, trail: string)
    requires ReadRawDictionary(codec, s).Some?
    ensures EntriesAre(codec, texts, ReadRawDictionary(codec, s).value)
    ensures Fits(texts, seps) && Commas(seps) && Gap(trail) && (texts == [] ==> trail == "")
    ensures s == Joined(texts, seps) + trail
    decreases |s|
  {
    hide EntryIs, AfterMember, Commas;
    if s == [] {
      texts, seps, trail := [], [], "";
      OneText("");
    } else {
      hide ReadRawDictionary, Joined;
      var b, e, tail := EntryWasRead(codec, s);
      var sep := CommaWasRead(tail);
      var t := AfterMember(tail).value;
      if t == [] {
        texts, seps, trail := [b], [], tail;
        OneText(b);
        NoList(codec);
        assert ReadRawDictionary(codec, s).value == [e];
      } else {
        var texts0, seps0, trail0 := DictionaryWasRead(codec, t);
        NotEmpty(texts0, seps0, trail0, t);
        texts, seps, trail := [b] + texts0, [sep] + seps0, trail0;
        EntriesCons(codec, b, e, texts0, ReadRawDictionary(codec, t).value);
        CommasCons(sep, seps0);
        JoinedCons(b, sep, texts0, seps0, trail0);
      }
    }
  }

  /** A text is parsed as a dictionary if and only if it is a text of that dictionary. */
  lemma DictionaryExactly(codec: Codec, s: string, d: Dictionary)
    ensures ParseDictionary(codec, s) == Some(d) <==> DictionaryIs(codec, s, d)
  {
    if ParseDictionary(codec, s) == Some(d) {
      DictionaryWasParsed(codec, s);
    }
    if DictionaryIs(codec, s, d) {
      DictionaryIsParsed(codec, s, d);
    }
  }

  lemma DictionaryWasParsed(codec: Codec, s: string)
    requires ParseDictionary(codec, s).Some?
    ensures DictionaryIs(codec, s, ParseDictionary(codec, s).value)
  {
    hide ReadRawDictionary, Skip, EntriesAre, Fits, Joined, Gap, Spaces, Commas, Merged;
    var lead := SkippedSpaces(s);
    var texts, seps, trail := DictionaryWasRead(codec, Skip(s, IsSpace));
    assert LaidOut(s, texts);
  }

  lemma DictionaryIsParsed(codec: Codec, s: string, d: Dictionary)
    requires DictionaryIs(codec, s, d)
    ensures ParseDictionary(codec, s) == Some(d)
  {
    hide ReadRawDictionary, Skip, EntryIs, Gap, Spaces, Commas, Starts, Merged;
    var texts: seq<string>, raw: Dictionary :|
      EntriesAre(codec, texts, raw) && LaidOut(s, texts) && d == Merged(raw);
    var lead: string, seps: seq<string>, trail: string :|
      && Spaces(lead) && Fits(texts, seps) && Commas(seps) && Gap(trail) && (texts == [] ==> trail == "")
      && s == lead + (Joined(texts, seps) + trail);
    var t := Joined(texts, seps) + trail;
    if raw == [] {
      assert t == [];
      NoList(codec);
    } else {
      EntriesStart(codec, texts, seps, raw, trail);
      DictionaryIsRead(codec, texts, seps, trail, raw);
    }
    SkipLead(lead, t);
  }

  // ---------------------------------------------------------------------------------------------
  // Items

  /** A text is parsed as an item if and only if it is a text of that item. */
  lemma ItemExactly(codec: Codec, s: string, item: ParameterizedItem)
    ensures ParseItem(codec, s) == Some(item) <==> ItemFieldIs(codec, s, item)
  {
    if ParseItem(codec, s) == Some(item) {
      ItemWasParsed(codec, s);
    }
    if ItemFieldIs(codec, s, item) {
      ItemIsParsed(codec, s, item);
    }
  }

  lemma ItemWasParsed(codec: Codec, s: string)
    requires ParseItem(codec, s).Some?
    ensures ItemFieldIs(codec, s, ParseItem(codec, s).value)
  {
    hide ReadItem, Skip, Spaces, ItemIs;
    var lead := SkippedSpaces(s);
    var t := Skip(s, IsSpace);
    var b := ItemWasRead(codec, t);
    var rest := ReadItem(codec, t).rest;
    var trail := SkippedSpaces(rest);
    assert rest == trail;
    assert s == lead + (b + trail);
  }

  lemma SpacesDone(s: string)
    requires Spaces(s)
    ensures Done(s) && Skip(s, IsSpace) == []
  {
    SkipSpaces(s, []);
    assert s + [] == s;
  }

  lemma ItemIsParsed(codec: Codec, s: string, item: ParameterizedItem)
    requires ItemFieldIs(codec, s, item)
    ensures ParseItem(codec, s) == Some(item)
  {
    hide ReadItem, Skip, Spaces, ItemIs, Done;
    var lead: string, b: string, trail: string :|
      Spaces(lead) && ItemIs(codec, b, item) && Spaces(trail) && s == lead + (b + trail);
    SpacesDone(trail);
    T.ItemBegins(codec, b, item);
    assert (b + trail)[0] == b[0];
    SkipSpaces(lead, b + trail);
    ItemIsRead(codec, b, item, trail);
  }
}
