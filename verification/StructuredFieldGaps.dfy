/** White space around commas: it never matters between members, and a comma behind the last one is refused. */
module StructuredFieldGaps {
  import opened Bytes
  import opened Sequences
  import opened StructuredFields
  import opened StructuredFieldText
  import opened StructuredFieldItems
  import opened R = StructuredFieldRoundTrip
  import opened StructuredFieldBareTexts
  import opened T = StructuredFieldMemberTexts
  import opened StructuredFieldListTexts

  // ---------------------------------------------------------------------------------------------
  // Any gaps

  /** Each member as it is written. */
  predicate MembersWritten(codec: Codec, ms: Members, texts: seq<string>)
    requires IsList(ms)
  {
    |texts| == |ms| && forall i :: 0 <= i < |ms| ==> WriteMember(codec, ms[i]) == Some(texts[i])
  }

  predicate EntriesWritten(codec: Codec, d: Dictionary, texts: seq<string>)
    requires IsDictionary(d)
  {
    |texts| == |d| && forall i :: 0 <= i < |d| ==> WriteEntry(codec, d[i]) == Some(texts[i])
  }

  /** Spaces and tabs before and after each of the commas. */
  predicate Gaps(before: seq<string>, after: seq<string>) {
    && |before| == |after|
    && (forall i :: 0 <= i < |before| ==> Gap(before[i]))
    && (forall i :: 0 <= i < |after| ==> Gap(after[i]))
  }

  /** The texts with a comma between any two of them, in the given gaps. */
  function WithGaps(texts: seq<string>, before: seq<string>, after: seq<string>): string
    requires |before| == |after| && |texts| == |before| + 1
  {
    if |texts| == 1 then texts[0]
    else texts[0] + before[0] + "," + after[0] + WithGaps(texts[1..], before[1..], after[1..])
  }

  function Separators(before: seq<string>, after: seq<string>): (seps: seq<string>)
    requires |before| == |after|
    ensures |seps| == |before|
  {
    seq(|before|, i requires 0 <= i < |before| => before[i] + ("," + after[i]))
  }

  lemma SeparatorsAreCommas(before: seq<string>, after: seq<string>)
    requires Gaps(before, after)
    ensures Commas(Separators(before, after))
  {
    hide Gap;
    var seps := Separators(before, after);
    forall i | 0 <= i < |seps| ensures IsComma(seps[i]) {
      assert Gap(before[i]) && Gap(after[i]) && seps[i] == before[i] + ("," + after[i]);
    }
  }

  lemma {:induction false} WithGapsJoins(texts: seq<string>, before: seq<string>, after: seq<string>)
    requires |before| == |after| && |texts| == |before| + 1
    ensures WithGaps(texts, before, after) == Joined(texts, Separators(before, after))
    decreases |texts|
  {
    var seps := Separators(before, after);
    if |texts| > 1 {
      WithGapsJoins(texts[1..], before[1..], after[1..]);
      assert seps[1..] == Separators(before[1..], after[1..]);
      var others := Joined(texts[1..], seps[1..]);
      assert texts[0] + before[0] + "," + after[0] + others == texts[0] + (before[0] + ("," + after[0]) + others);
    }
  }

  lemma GapsLayOut(lead: string, texts: seq<string>, before: seq<string>, after: seq<string>, trail: string)
    requires Spaces(lead) && Gap(trail) && Gaps(before, after) && |texts| == |before| + 1
    ensures LaidOut(lead + WithGaps(texts, before, after) + trail, texts)
  {
    hide Gap, Spaces, Joined, WithGaps, Commas, Separators;
    var seps := Separators(before, after);
    SeparatorsAreCommas(before, after);
    WithGapsJoins(texts, before, after);
    assert lead + WithGaps(texts, before, after) + trail == lead + (Joined(texts, seps) + trail);
  }

  lemma WrittenMember(codec: Codec, m: Member)
    requires Faithful(codec) && IsMember(m) && WriteMember(codec, m).Some?
    ensures MemberIs(codec, WriteMember(codec, m).value, NormalMember(m))
  {
    hide Faithful, WriteMember, ReadMember, NormalMember, MemberIs;
    var b := WriteMember(codec, m).value;
    assert b + [] == b;
    MemberRoundTrip(codec, m, []);
    var x := MemberWasRead(codec, b);
    assert x + [] == x;
  }

  lemma WrittenMembers(codec: Codec, ms: Members, texts: seq<string>)
    requires Faithful(codec) && IsList(ms) && MembersWritten(codec, ms, texts)
    ensures MembersAre(codec, texts, NormalList(ms))
  {
    hide Faithful, WriteMember, NormalMember, MemberIs, IsMember;
    forall i | 0 <= i < |ms| ensures MemberIs(codec, texts[i], NormalList(ms)[i]) {
      WrittenMember(codec, ms[i]);
    }
  }

  /** Of a list that can be written, the members may stand with any spaces and tabs before and after each comma, any
      spaces in front and any spaces and tabs at the end: it is the same list as in its canonical text. */
  lemma ListGapsDoNotMatter(codec: Codec, ms: Members, texts: seq<string>, lead: string, before: seq<string>,
                            after: seq<string>, trail: string)
    requires Faithful(codec) && ms != [] && IsList(ms) && WriteList(codec, ms).Some?
    requires MembersWritten(codec, ms, texts)
    requires Spaces(lead) && Gap(trail) && Gaps(before, after) && |texts| == |before| + 1
    ensures ParseList(codec, lead + WithGaps(texts, before, after) + trail)
         == ParseList(codec, WriteList(codec, ms).value) == Some(NormalList(ms))
  {
    hide Faithful, MembersWritten, ParseList, WriteList, NormalList, MembersAre, LaidOut, Gap, Spaces, WithGaps;
    WrittenMembers(codec, ms, texts);
    GapsLayOut(lead, texts, before, after, trail);
    ListIsParsed(codec, lead + WithGaps(texts, before, after) + trail, NormalList(ms));
    ListRoundTrip(codec, ms);
  }

  lemma WrittenEntryValue(codec: Codec, m: Member)
    requires Faithful(codec) && (IsTrue(m) || IsMember(m)) && WriteEntryValue(codec, m).Some?
    ensures EntryValueIs(codec, WriteEntryValue(codec, m).value, NormalEntryValue(m))
  {
    hide Faithful, WriteEntryValue, ReadDictionaryValue, NormalEntryValue, EntryValueIs, Follows;
    var v := WriteEntryValue(codec, m).value;
    assert v + [] == v;
    EntryValueRoundTrip(codec, m, []);
    var x := EntryValueWasRead(codec, v);
    assert x + [] == x;
  }

  lemma WrittenEntry(codec: Codec, e: (string, Member))
    requires Faithful(codec) && IsEntry(e) && WriteEntry(codec, e).Some?
    ensures EntryIs(codec, WriteEntry(codec, e).value, (e.0, NormalEntryValue(e.1)))
  {
    hide Faithful, WriteEntryValue, NormalEntryValue, EntryValueIs, IsTrue, IsMember, IsKey;
    WrittenEntryValue(codec, e.1);
  }

  lemma WrittenEntries(codec: Codec, d: Dictionary, texts: seq<string>)
    requires Faithful(codec) && IsDictionary(d) && EntriesWritten(codec, d, texts)
    ensures EntriesAre(codec, texts, NormalEntries(d))
  {
    hide Faithful, WriteEntry, NormalEntryValue, EntryIs, IsEntry;
    forall i | 0 <= i < |d| ensures EntryIs(codec, texts[i], NormalEntries(d)[i]) {
      WrittenEntry(codec, d[i]);
    }
  }

  /** The same of a dictionary. */
  lemma DictionaryGapsDoNotMatter(codec: Codec, d: Dictionary, texts: seq<string>, lead: string, before: seq<string>,
                                  after: seq<string>, trail: string)
    requires Faithful(codec) && d != [] && IsDictionary(d) && WriteDictionary(codec, d).Some?
    requires EntriesWritten(codec, d, texts)
    requires Spaces(lead) && Gap(trail) && Gaps(before, after) && |texts| == |before| + 1
    ensures ParseDictionary(codec, lead + WithGaps(texts, before, after) + trail)
         == ParseDictionary(codec, WriteDictionary(codec, d).value) == Some(NormalDictionary(d))
  {
    hide Faithful, EntriesWritten, ParseDictionary, WriteDictionary, NormalEntries, EntriesAre, LaidOut, Merged;
    hide Gap, Spaces, WithGaps;
    WrittenEntries(codec, d, texts);
    GapsLayOut(lead, texts, before, after, trail);
    DictionaryIsParsed(codec, lead + WithGaps(texts, before, after) + trail, NormalDictionary(d));
    DictionaryRoundTrip(codec, d);
  }

  // ---------------------------------------------------------------------------------------------
  // A comma at the end

  lemma {:induction false} JoinedEnds(texts: seq<string>, seps: seq<string>)
    requires texts != [] && Fits(texts, seps) && EndsWell(texts[|texts| - 1])
    ensures EndsWell(Joined(texts, seps))
    decreases |texts|
  {
    hide EndsWell;
    if |texts| > 1 {
      JoinedEnds(texts[1..], seps[1..]);
      EndsBehind(seps[0], Joined(texts[1..], seps[1..]));
      EndsBehind(texts[0], seps[0] + Joined(texts[1..], seps[1..]));
    }
  }

  /** What ends well has no comma between its last character and white space behind it. */
  lemma NoCommaBehind(t: string, trail: string, s: string, gap: string)
    requires EndsWell(t) && Gap(trail) && Gap(gap)
    ensures t + trail != s + "," + gap
  {
    var a, b := t + trail, s + "," + gap;
    assert a[|t| - 1] !in " \t," && forall i :: |t| <= i < |a| ==> a[i] in " \t";
    assert b[|s|] == ',' && forall i :: |s| < i < |b| ==> b[i] in " \t";
  }

  lemma LaidOutEnds(s: string, texts: seq<string>, front: string, gap: string)
    requires LaidOut(s, texts) && Gap(gap)
    requires texts == [] || EndsWell(texts[|texts| - 1])
    ensures s != front + "," + gap
  {
    hide Gap, EndsWell, Commas, Joined;
    var lead: string, seps: seq<string>, trail: string :|
      && Spaces(lead) && Fits(texts, seps) && Commas(seps) && Gap(trail) && (texts == [] ==> trail == "")
      && s == lead + (Joined(texts, seps) + trail);
    if texts == [] {
      NothingJoined(seps);
      assert s == lead;
      assert (front + "," + gap)[|front|] == ',';
    } else {
      hide Spaces, Fits;
      JoinedEnds(texts, seps);
      EndsBehind(lead, Joined(texts, seps));
      NoCommaBehind(lead + Joined(texts, seps), trail, front, gap);
      assert s == lead + Joined(texts, seps) + trail;
    }
  }

  lemma NothingJoined(seps: seq<string>)
    ensures Joined([], seps) == ""
  {
  }

  /** Whatever is in front of it, a comma with only spaces and tabs behind it is refused at the end of a list. */
  lemma ListRefusesComma(codec: Codec, s: string, gap: string)
    requires Gap(gap)
    ensures ParseList(codec, s + "," + gap) == None
  {
    hide ParseList, MemberIs, Gap, LaidOut, EndsWell;
    var all := s + "," + gap;
    if ParseList(codec, all).Some? {
      ListWasParsed(codec, all);
      var ms := ParseList(codec, all).value;
      var texts: seq<string> :| MembersAre(codec, texts, ms) && LaidOut(all, texts);
      if texts != [] {
        MemberEnds(codec, texts[|texts| - 1], ms[|texts| - 1]);
      }
      LaidOutEnds(all, texts, s, gap);
    }
  }

  lemma EntryEnds(codec: Codec, b: string, e: (string, Member))
    requires EntryIs(codec, b, e)
    ensures EndsWell(b)
  {
    hide ParametersAre, MemberIs, EndsWell, IsKey;
    KeyBegins(e.0);
    var v: string :| EntryValueIs(codec, v, e.1) && b == e.0 + v;
    if e.1 == SingleItem(Boolean(true), e.1.params) && ParametersAre(codec, v, e.1.params) {
      ParametersEndWell(codec, e.0, v, e.1.params);
    } else {
      var x: string :| MemberIs(codec, x, e.1) && v == "=" + x;
      MemberEnds(codec, x, e.1);
      EndsBehind("=", x);
      EndsBehind(e.0, v);
    }
  }

  /** The same of a dictionary. */
  lemma DictionaryRefusesComma(codec: Codec, s: string, gap: string)
    requires Gap(gap)
    ensures ParseDictionary(codec, s + "," + gap) == None
  {
    hide ParseDictionary, EntryIs, Gap, LaidOut, EndsWell, Merged;
    var all := s + "," + gap;
    if ParseDictionary(codec, all).Some? {
      DictionaryWasParsed(codec, all);
      var d := ParseDictionary(codec, all).value;
      var texts: seq<string>, raw: Dictionary :|
        EntriesAre(codec, texts, raw) && LaidOut(all, texts) && d == Merged(raw);
      if texts != [] {
        EntryEnds(codec, texts[|texts| - 1], raw[|texts| - 1]);
      }
      LaidOutEnds(all, texts, s, gap);
    }
  }
}
