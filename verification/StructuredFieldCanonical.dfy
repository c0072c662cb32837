/** What the parser accepts can be written, and reading that text gives the same value. */
module StructuredFieldCanonical {
  import opened Bytes
  import opened StructuredFields
  import opened StructuredFieldText
  import opened StructuredFieldItems
  import opened StructuredFieldKeys
  import opened StructuredFieldRoundTrip
  import opened Sequences

  // ---------------------------------------------------------------------------------------------
  // Canonical values

  predicate CanonicalEntry(e: (string, Item)) {
    IsKey(e.0) && Canonical(e.1)
  }

  predicate CanonicalParameters(ps: Entries<Item>) {
    All(ps, CanonicalEntry) && Distinct(Keys(ps))
  }

  predicate CanonicalItem(item: ParameterizedItem) {
    Canonical(item.item) && CanonicalParameters(item.params)
  }

  predicate CanonicalItems(items: seq<ParameterizedItem>) {
    forall i :: 0 <= i < |items| ==> CanonicalItem(items[i])
  }

  /** The parameters of a single item are held by its member. */
  predicate CanonicalMember(m: Member) {
    && CanonicalParameters(m.params)
    && if m.isInnerList then CanonicalItems(m.items)
       else |m.items| == 1 && Canonical(m.items[0].item) && m.items[0].params == []
  }

  predicate CanonicalList(ms: Members) {
    forall i :: 0 <= i < |ms| ==> CanonicalMember(ms[i])
  }

  predicate CanonicalDictionaryEntry(e: (string, Member)) {
    IsKey(e.0) && CanonicalMember(e.1)
  }

  predicate CanonicalDictionary(d: Dictionary) {
    All(d, CanonicalDictionaryEntry) && Distinct(Keys(d))
  }

  // ---------------------------------------------------------------------------------------------
  // What is read is canonical

  lemma ReadParameterCanonical(codec: Codec, s: string)
    ensures ReadParameter(codec, s).Ok? ==> CanonicalEntry(ReadParameter(codec, s).value)
  {
    var t := Skip(s, IsSpace);
    ReadKeyIsKey(t);
    hide ReadKey, IsKey, ReadBareItem, Skip;
    if ReadKey(t).Ok? && StartsWith(ReadKey(t).rest, '=') {
      ReadBareItemCanonical(codec, ReadKey(t).rest[1..]);
    }
  }

  lemma {:induction false} ReadRawParametersCanonical(codec: Codec, s: string)
    ensures ReadRawParameters(codec, s).Ok? ==> All(ReadRawParameters(codec, s).value, CanonicalEntry)
    decreases |s|
  {
    hide ReadParameter, CanonicalEntry, All;
    AllOfNone(CanonicalEntry);
    if StartsWith(s, ';') && ReadParameter(codec, s[1..]).Ok? {
      var first := ReadParameter(codec, s[1..]);
      ReadParameterCanonical(codec, s[1..]);
      ReadRawParametersCanonical(codec, first.rest);
      var others := ReadRawParameters(codec, first.rest);
      if others.Ok? {
        AllWithFirst(first.value, others.value, CanonicalEntry);
      }
    }
  }

  lemma ReadParametersCanonical(codec: Codec, s: string)
    ensures ReadParameters(codec, s).Ok? ==> CanonicalParameters(ReadParameters(codec, s).value)
  {
    hide ReadRawParameters, CanonicalEntry, Merged;
    ReadRawParametersCanonical(codec, s);
    if ReadRawParameters(codec, s).Ok? {
      var raw := ReadRawParameters(codec, s).value;
      MergedAll(raw, CanonicalEntry);
      MergedKeys(raw);
    }
  }

  lemma ReadItemCanonical(codec: Codec, s: string)
    ensures ReadItem(codec, s).Ok? ==> CanonicalItem(ReadItem(codec, s).value)
  {
    hide ReadBareItem, ReadParameters, Canonical, CanonicalParameters;
    ReadBareItemCanonical(codec, s);
    if ReadBareItem(codec, s).Ok? {
      ReadParametersCanonical(codec, ReadBareItem(codec, s).rest);
    }
  }

  lemma {:induction false} ReadInnerItemsCanonical(codec: Codec, s: string)
    ensures ReadInnerItems(codec, s).Ok? ==> CanonicalItems(ReadInnerItems(codec, s).value)
    decreases |s|
  {
    hide ReadItem, CanonicalItem, Skip;
    var t := Skip(s, IsSpace);
    ReadItemCanonical(codec, t);
    if !StartsWith(t, ')') && ReadItem(codec, t).Ok? {
      ReadInnerItemsCanonical(codec, ReadItem(codec, t).rest);
    }
  }

  lemma ReadInnerListCanonical(codec: Codec, s: string)
    ensures ReadInnerList(codec, s).Ok? ==> CanonicalMember(ReadInnerList(codec, s).value)
  {
    hide ReadInnerItems, ReadParameters, CanonicalItems, CanonicalParameters;
    if StartsWith(s, '(') {
      ReadInnerItemsCanonical(codec, s[1..]);
      if ReadInnerItems(codec, s[1..]).Ok? {
        ReadParametersCanonical(codec, ReadInnerItems(codec, s[1..]).rest);
      }
    }
  }

  lemma ReadMemberCanonical(codec: Codec, s: string)
    ensures ReadMember(codec, s).Ok? ==> CanonicalMember(ReadMember(codec, s).value)
  {
    ReadInnerListCanonical(codec, s);
    ReadItemCanonical(codec, s);
    hide ReadInnerList, ReadItem, CanonicalParameters, Canonical;
  }

  lemma {:induction false} ReadListCanonical(codec: Codec, s: string)
    ensures ReadList(codec, s).Some? ==> CanonicalList(ReadList(codec, s).value)
    decreases |s|
  {
    hide ReadMember, CanonicalMember, AfterMember;
    ReadMemberCanonical(codec, s);
    if s != [] && ReadMember(codec, s).Ok? && AfterMember(ReadMember(codec, s).rest).Some? {
      ReadListCanonical(codec, AfterMember(ReadMember(codec, s).rest).value);
    }
  }

  lemma ReadDictionaryValueCanonical(codec: Codec, s: string)
    ensures ReadDictionaryValue(codec, s).Ok? ==> CanonicalMember(ReadDictionaryValue(codec, s).value)
  {
    hide ReadMember, ReadParameters, CanonicalParameters;
    ReadParametersCanonical(codec, s);
    if StartsWith(s, '=') {
      ReadMemberCanonical(codec, s[1..]);
    }
  }

  lemma {:induction false} ReadRawDictionaryCanonical(codec: Codec, s: string)
    ensures ReadRawDictionary(codec, s).Some? ==> All(ReadRawDictionary(codec, s).value, CanonicalDictionaryEntry)
    decreases |s|
  {
    hide ReadKey, IsKey, ReadDictionaryValue, CanonicalMember, AfterMember;
    ReadKeyIsKey(s);
    if s != [] && ReadKey(s).Ok? {
      var t := ReadKey(s).rest;
      ReadDictionaryValueCanonical(codec, t);
      if ReadDictionaryValue(codec, t).Ok? && AfterMember(ReadDictionaryValue(codec, t).rest).Some? {
        ReadRawDictionaryCanonical(codec, AfterMember(ReadDictionaryValue(codec, t).rest).value);
      }
    }
  }

  lemma ParseDictionaryCanonical(codec: Codec, s: string)
    ensures ParseDictionary(codec, s).Some? ==> CanonicalDictionary(ParseDictionary(codec, s).value)
  {
    hide ReadRawDictionary, CanonicalDictionaryEntry, Merged, Skip;
    var t := Skip(s, IsSpace);
    ReadRawDictionaryCanonical(codec, t);
    if ReadRawDictionary(codec, t).Some? {
      var raw := ReadRawDictionary(codec, t).value;
      MergedAll(raw, CanonicalDictionaryEntry);
      MergedKeys(raw);
    }
  }

  // ---------------------------------------------------------------------------------------------
  // What is canonical can be written and stays as it is

  lemma {:induction false} ParametersWritable(codec: Codec, ps: Entries<Item>)
    requires All(ps, CanonicalEntry)
    ensures WriteParameters(codec, ps).Some?
  {
    hide ItemText, IsKey;
    if ps != [] {
      assert CanonicalEntry(ps[0]);
      CanonicalComesBack(ps[0].1);
      ParametersWritable(codec, ps[1..]);
    }
  }

  lemma ParametersFixed(codec: Codec, ps: Entries<Item>)
    requires CanonicalParameters(ps)
    ensures WriteParameters(codec, ps).Some?
    ensures NormalParameters(ps) == ps
  {
    ParametersWritable(codec, ps);
    MergedFixed(ps);
    hide Merged, NormalItem, Canonical, Writable, IsKey, WriteParameters;
    forall i | 0 <= i < |ps|
      ensures NormalItem(ps[i].1) == ps[i].1
    {
      assert CanonicalEntry(ps[i]);
      CanonicalComesBack(ps[i].1);
    }
    assert forall i :: 0 <= i < |ps| ==> CanonicalEntry(ps[i]) && NormalItem(ps[i].1) == ps[i].1;
    assert NormalValues(ps) == ps;
  }

  lemma ItemFixed(codec: Codec, item: ParameterizedItem)
    requires CanonicalItem(item)
    ensures WriteItem(codec, item).Some?
    ensures NormalParameterizedItem(item) == item
  {
    ParametersFixed(codec, item.params);
    CanonicalComesBack(item.item);
    hide CanonicalParameters, Canonical, NormalParameters, WriteParameters, NormalItem, Writable;
  }

  lemma {:induction false} SpacedItemsFixed(codec: Codec, items: seq<ParameterizedItem>)
    requires CanonicalItems(items)
    ensures WriteSpacedItems(codec, items).Some?
  {
    hide WriteItem, CanonicalItem;
    if items != [] {
      ItemFixed(codec, items[0]);
      SpacedItemsFixed(codec, items[1..]);
    }
  }

  lemma ItemsFixed(codec: Codec, items: seq<ParameterizedItem>)
    requires CanonicalItems(items)
    ensures WriteItems(codec, items).Some?
    ensures NormalItems(items) == items
  {
    hide WriteItem, CanonicalItem, NormalParameterizedItem, WriteSpacedItems;
    forall i | 0 <= i < |items| ensures NormalParameterizedItem(items[i]) == items[i] {
      ItemFixed(codec, items[i]);
    }
    if items != [] {
      ItemFixed(codec, items[0]);
      SpacedItemsFixed(codec, items[1..]);
    }
  }

  lemma InnerListFixed(codec: Codec, m: Member)
    requires CanonicalMember(m) && m.isInnerList
    ensures WriteMember(codec, m).Some? && NormalMember(m) == m
  {
    hide CanonicalParameters, NormalParameters, CanonicalItems, WriteItems, WriteParameters;
    ParametersFixed(codec, m.params);
    ItemsFixed(codec, m.items);
  }

  lemma NoParametersText(codec: Codec)
    ensures WriteParameters(codec, []) == Some("")
  {
  }

  lemma SingleItemFixed(codec: Codec, m: Member)
    requires CanonicalMember(m) && !m.isInnerList
    ensures WriteMember(codec, m).Some? && NormalMember(m) == m
  {
    hide CanonicalParameters, NormalParameters, WriteParameters, NormalItem, Canonical, Writable, ItemText;
    NoParametersText(codec);
    CanonicalComesBack(m.items[0].item);
    ParametersFixed(codec, m.params);
    assert m.items[0].params + m.params == m.params;
    assert m.items == [ParameterizedItem(m.items[0].item, [])];
  }

  lemma MemberFixed(codec: Codec, m: Member)
    requires CanonicalMember(m)
    ensures IsMember(m) && WriteMember(codec, m).Some?
    ensures NormalMember(m) == m
  {
    if m.isInnerList {
      InnerListFixed(codec, m);
    } else {
      SingleItemFixed(codec, m);
    }
  }

  lemma {:induction false} MoreMembersFixed(codec: Codec, ms: Members)
    requires CanonicalList(ms)
    ensures IsList(ms) && WriteMoreMembers(codec, ms).Some?
  {
    hide WriteMember, CanonicalMember, IsMember;
    if ms != [] {
      MemberFixed(codec, ms[0]);
      MoreMembersFixed(codec, ms[1..]);
      assert forall i :: 0 < i < |ms| ==> ms[i] == ms[1..][i - 1];
    }
  }

  lemma ListFixed(codec: Codec, ms: Members)
    requires CanonicalList(ms)
    ensures IsList(ms) && WriteList(codec, ms).Some?
    ensures NormalList(ms) == ms
  {
    hide WriteMember, CanonicalMember, IsMember, NormalMember, WriteMoreMembers;
    MoreMembersFixed(codec, ms);
    forall i | 0 <= i < |ms| ensures IsMember(ms[i]) && NormalMember(ms[i]) == ms[i] {
      MemberFixed(codec, ms[i]);
    }
    if ms != [] {
      MemberFixed(codec, ms[0]);
      MoreMembersFixed(codec, ms[1..]);
    }
  }

  lemma EntryFixed(codec: Codec, e: (string, Member))
    requires CanonicalDictionaryEntry(e)
    ensures IsEntry(e) && WriteEntry(codec, e).Some?
    ensures NormalEntryValue(e.1) == e.1
  {
    MemberFixed(codec, e.1);
    ParametersFixed(codec, e.1.params);
    hide NormalMember, NormalParameters, WriteMember, WriteParameters, CanonicalParameters, IsKey;
    if IsTrue(e.1) {
      assert e.1.items == [ParameterizedItem(Boolean(true), [])];
    }
  }

  lemma {:induction false} MoreEntriesFixed(codec: Codec, d: Dictionary)
    requires All(d, CanonicalDictionaryEntry)
    ensures IsDictionary(d) && WriteMoreEntries(codec, d).Some?
  {
    hide WriteEntry, CanonicalDictionaryEntry, IsEntry;
    if d != [] {
      EntryFixed(codec, d[0]);
      MoreEntriesFixed(codec, d[1..]);
      assert forall i :: 0 < i < |d| ==> d[i] == d[1..][i - 1];
    }
  }

  lemma DictionaryFixed(codec: Codec, d: Dictionary)
    requires CanonicalDictionary(d)
    ensures IsDictionary(d) && WriteDictionary(codec, d).Some?
    ensures NormalDictionary(d) == d
  {
    hide WriteEntry, CanonicalDictionaryEntry, NormalEntryValue, WriteMoreEntries, Merged;
    MoreEntriesFixed(codec, d);
    forall i | 0 <= i < |d| ensures IsEntry(d[i]) && NormalEntryValue(d[i].1) == d[i].1 {
      EntryFixed(codec, d[i]);
    }
    assert NormalEntries(d) == d;
    MergedFixed(d);
    if d != [] {
      EntryFixed(codec, d[0]);
      MoreEntriesFixed(codec, d[1..]);
    }
  }

  // ---------------------------------------------------------------------------------------------
  // Main results

  /** Exactly the canonical items come back unchanged, and every parsed item is one. */
  lemma ItemIsCanonical(codec: Codec, item: ParameterizedItem, s: string)
    requires Faithful(codec)
    ensures CanonicalItem(item)
        <==> WriteItem(codec, item).Some? && ParseItem(codec, WriteItem(codec, item).value) == Some(item)
    ensures ParseItem(codec, s) == Some(item) ==> CanonicalItem(item)
  {
    hide CanonicalItem, WriteItem, ReadItem, Faithful, NormalParameterizedItem, Skip;
    if CanonicalItem(item) {
      ItemFixed(codec, item);
      TopItemRoundTrip(codec, item);
    }
    if WriteItem(codec, item).Some? {
      ReadItemCanonical(codec, Skip(WriteItem(codec, item).value, IsSpace));
    }
    ReadItemCanonical(codec, Skip(s, IsSpace));
  }

  /** Exactly the canonical lists come back unchanged, and every parsed list is one. */
  lemma ListIsCanonical(codec: Codec, ms: Members, s: string)
    requires Faithful(codec) && IsList(ms)
    ensures CanonicalList(ms)
        <==> WriteList(codec, ms).Some? && ParseList(codec, WriteList(codec, ms).value) == Some(ms)
    ensures ParseList(codec, s) == Some(ms) ==> CanonicalList(ms)
  {
    hide CanonicalList, WriteList, ReadList, Faithful, NormalList, Skip, IsList;
    if CanonicalList(ms) {
      ListFixed(codec, ms);
      ListRoundTrip(codec, ms);
    }
    if WriteList(codec, ms).Some? {
      ReadListCanonical(codec, Skip(WriteList(codec, ms).value, IsSpace));
    }
    ReadListCanonical(codec, Skip(s, IsSpace));
  }

  /** Exactly the canonical dictionaries come back unchanged, and every parsed dictionary is one. */
  lemma DictionaryIsCanonical(codec: Codec, d: Dictionary, s: string)
    requires Faithful(codec) && IsDictionary(d)
    ensures CanonicalDictionary(d)
        <==> WriteDictionary(codec, d).Some? && ParseDictionary(codec, WriteDictionary(codec, d).value) == Some(d)
    ensures ParseDictionary(codec, s) == Some(d) ==> CanonicalDictionary(d)
  {
    hide CanonicalDictionary, WriteDictionary, ParseDictionary, Faithful, NormalDictionary, IsDictionary;
    if CanonicalDictionary(d) {
      DictionaryFixed(codec, d);
      DictionaryRoundTrip(codec, d);
    }
    if WriteDictionary(codec, d).Some? {
      ParseDictionaryCanonical(codec, WriteDictionary(codec, d).value);
    }
    ParseDictionaryCanonical(codec, s);
  }

  /** Whatever is accepted has a canonical text that stands for the same value. */
  lemma AcceptedTextHasCanonicalForm(codec: Codec, s: string)
    requires Faithful(codec)
    ensures ParseList(codec, s).Some? ==>
              var ms := ParseList(codec, s).value;
              && IsList(ms) && WriteList(codec, ms).Some?
              && ParseList(codec, WriteList(codec, ms).value) == Some(ms)
    ensures ParseDictionary(codec, s).Some? ==>
              var d := ParseDictionary(codec, s).value;
              && IsDictionary(d) && WriteDictionary(codec, d).Some?
              && ParseDictionary(codec, WriteDictionary(codec, d).value) == Some(d)
    ensures ParseItem(codec, s).Some? ==>
              var item := ParseItem(codec, s).value;
              && WriteItem(codec, item).Some?
              && ParseItem(codec, WriteItem(codec, item).value) == Some(item)
  {
    hide CanonicalList, CanonicalDictionary, CanonicalItem, ParseItem, ParseDictionary, Faithful;
    hide WriteList, WriteDictionary, WriteItem, ReadList, IsList, IsDictionary;
    if ParseList(codec, s).Some? {
      ReadListCanonical(codec, Skip(s, IsSpace));
      ListFixed(codec, ParseList(codec, s).value);
      ListIsCanonical(codec, ParseList(codec, s).value, s);
    }
    if ParseDictionary(codec, s).Some? {
      ParseDictionaryCanonical(codec, s);
      DictionaryFixed(codec, ParseDictionary(codec, s).value);
      DictionaryIsCanonical(codec, ParseDictionary(codec, s).value, s);
    }
    if ParseItem(codec, s).Some? {
      ItemIsCanonical(codec, ParseItem(codec, s).value, s);
    }
  }
}
