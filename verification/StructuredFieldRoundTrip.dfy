/** A list, dictionary or item that is written and read again comes back in its normal form. */
module StructuredFieldRoundTrip {
  import opened Bytes
  import opened StructuredFields
  import opened StructuredFieldText
  import opened StructuredFieldItems

  /** What can come behind parameters. */
  predicate Ends(rest: string) {
    rest == [] || rest[0] in " ,)"
  }

  /** An item or a member never begins with one of these. */
  predicate Begins(s: string) {
    s != [] && s[0] !in " \t,;)"
  }

  lemma SkipNothing(s: string, p: char -> bool)
    requires s == [] || !p(s[0])
    ensures Skip(s, p) == s
  {
  }

  lemma SkipOne(c: char, s: string, p: char -> bool)
    requires p(c)
    requires s == [] || !p(s[0])
    ensures Skip([c] + s, p) == s
  {
    SpanStops([c], s, p);
  }

  // ---------------------------------------------------------------------------------------------
  // Parameters

  lemma NormalTrue()
    ensures NormalItem(Null) == NormalItem(Boolean(true)) == Boolean(true)
  {
  }

  lemma ParameterValueRoundTrip(codec: Codec, v: Item, rest: string)
    requires Faithful(codec)
    requires WriteParameterValue(codec, v).Some?
    requires Follows(rest)
    ensures var s := WriteParameterValue(codec, v).value + rest;
            if StartsWith(s, '=') then ReadBareItem(codec, s[1..]) == Ok(NormalItem(v), rest)
            else Follows(s) && s == rest && NormalItem(v) == Boolean(true)
  {
    hide ReadBareItem, ItemText, Writable, NormalItem, Faithful, Follows;
    FollowsNotEquals(rest);
    NormalTrue();
    if v.Null? || v == Boolean(true) {
      assert "" + rest == rest;
    } else {
      BareItemRoundTrip(codec, v, rest);
      var s := WriteParameterValue(codec, v).value + rest;
      assert s[1..] == ItemText(codec, v) + rest;
    }
  }

  lemma ParameterRoundTrip(codec: Codec, p: (string, Item), rest: string)
    requires Faithful(codec)
    requires WriteParameter(codec, p).Some?
    requires Follows(rest)
    ensures ReadParameter(codec, WriteParameter(codec, p).value + rest) == Ok((p.0, NormalItem(p.1)), rest)
  {
    hide WriteParameterValue, ReadBareItem, NormalItem, Faithful;
    var v := WriteParameterValue(codec, p.1).value;
    ParameterValueRoundTrip(codec, p.1, rest);
    KeyRoundTrip(p.0, v + rest);
    assert IsKeyChar(p.0[0]) && !IsSpace(p.0[0]);
    hide ReadKey, IsKey, Follows, IsSpace, Skip;
    SkipNothing(p.0 + (v + rest), IsSpace);
    assert WriteParameter(codec, p).value + rest == p.0 + (v + rest);
  }

  lemma ParametersStart(codec: Codec, ps: Entries<Item>, rest: string)
    requires WriteParameters(codec, ps).Some?
    requires Ends(rest)
    ensures Follows(WriteParameters(codec, ps).value + rest)
  {
    var t := WriteParameters(codec, ps).value;
    if ps == [] {
      assert t + rest == rest;
    } else {
      assert (t + rest)[0] == ';';
    }
  }

  lemma RawParametersStep(codec: Codec, s: string, p: (string, Item), tail: string, ps: Entries<Item>, rest: string)
    requires ReadParameter(codec, s) == Ok(p, tail)
    requires ReadRawParameters(codec, tail) == Ok(ps, rest)
    ensures ReadRawParameters(codec, ";" + s) == Ok([p] + ps, rest)
  {
    hide ReadParameter;
    assert (";" + s)[1..] == s;
  }

  lemma ParametersText(codec: Codec, ps: Entries<Item>, rest: string)
    requires ps != [] && WriteParameters(codec, ps).Some?
    ensures WriteParameter(codec, ps[0]).Some? && WriteParameters(codec, ps[1..]).Some?
    ensures WriteParameters(codec, ps).value + rest
         == ";" + (WriteParameter(codec, ps[0]).value + (WriteParameters(codec, ps[1..]).value + rest))
  {
    hide WriteParameter;
    Regroup(";", WriteParameter(codec, ps[0]).value, WriteParameters(codec, ps[1..]).value, rest);
  }

  lemma Regroup(a: string, b: string, c: string, d: string)
    ensures a + b + c + d == a + (b + (c + d))
  {
  }

  lemma NormalValuesStep(ps: Entries<Item>)
    requires ps != []
    ensures NormalValues(ps) == [(ps[0].0, NormalItem(ps[0].1))] + NormalValues(ps[1..])
  {
    hide NormalItem;
  }

  lemma NoParameters(codec: Codec, rest: string)
    requires Ends(rest)
    ensures ReadRawParameters(codec, "" + rest) == Ok(NormalValues([]), rest)
  {
    assert "" + rest == rest;
  }

  lemma {:induction false} RawParametersRoundTrip(codec: Codec, ps: Entries<Item>, rest: string)
    requires Faithful(codec)
    requires WriteParameters(codec, ps).Some?
    requires Ends(rest)
    ensures ReadRawParameters(codec, WriteParameters(codec, ps).value + rest) == Ok(NormalValues(ps), rest)
  {
    if ps == [] {
      NoParameters(codec, rest);
    } else {
      hide WriteParameter, ReadParameter, NormalItem, Faithful, Ends, Follows, ReadRawParameters, WriteParameters;
      ParametersText(codec, ps, rest);
      var t := WriteParameter(codec, ps[0]).value;
      var tail := WriteParameters(codec, ps[1..]).value + rest;
      ParametersStart(codec, ps[1..], rest);
      ParameterRoundTrip(codec, ps[0], tail);
      RawParametersRoundTrip(codec, ps[1..], rest);
      RawParametersStep(codec, t + tail, (ps[0].0, NormalItem(ps[0].1)), tail, NormalValues(ps[1..]), rest);
      NormalValuesStep(ps);
    }
  }

  lemma ParametersRoundTrip(codec: Codec, ps: Entries<Item>, rest: string)
    requires Faithful(codec)
    requires WriteParameters(codec, ps).Some?
    requires Ends(rest)
    ensures ReadParameters(codec, WriteParameters(codec, ps).value + rest) == Ok(NormalParameters(ps), rest)
  {
    RawParametersRoundTrip(codec, ps, rest);
  }

  lemma {:induction false} ParametersConcat(codec: Codec, ps: Entries<Item>, qs: Entries<Item>)
    ensures WriteParameters(codec, ps + qs) == Both(WriteParameters(codec, ps), WriteParameters(codec, qs))
  {
    hide WriteParameter, Both;
    if ps == [] {
      assert ps + qs == qs;
      BothNothing(WriteParameters(codec, qs));
    } else {
      ParametersConcat(codec, ps[1..], qs);
      assert (ps + qs)[1..] == ps[1..] + qs;
      BothAssociative(Both(Some(";"), WriteParameter(codec, ps[0])), WriteParameters(codec, ps[1..]),
                      WriteParameters(codec, qs));
    }
  }

  lemma BothNothing(a: Option<string>)
    ensures Both(Some(""), a) == a
  {
    if a.Some? {
      assert "" + a.value == a.value;
    }
  }

  lemma BothAssociative(a: Option<string>, b: Option<string>, c: Option<string>)
    ensures Both(a, Both(b, c)) == Both(Both(a, b), c)
  {
    if a.Some? && b.Some? && c.Some? {
      assert a.value + (b.value + c.value) == a.value + b.value + c.value;
    }
  }

  // ---------------------------------------------------------------------------------------------
  // Items and inner lists

  lemma ItemRoundTrip(codec: Codec, item: ParameterizedItem, rest: string)
    requires Faithful(codec)
    requires WriteItem(codec, item).Some?
    requires Ends(rest)
    ensures ReadItem(codec, WriteItem(codec, item).value + rest) == Ok(NormalParameterizedItem(item), rest)
  {
    hide ReadBareItem, ReadParameters, WriteParameters, NormalItem, NormalParameters, Faithful, Follows, Ends;
    hide ItemText, Writable;
    var bare := ItemText(codec, item.item);
    var params := WriteParameters(codec, item.params).value;
    ParametersStart(codec, item.params, rest);
    BareItemRoundTrip(codec, item.item, params + rest);
    ParametersRoundTrip(codec, item.params, rest);
    assert WriteItem(codec, item).value + rest == bare + (params + rest);
  }

  lemma BareItemBegins(codec: Codec, item: Item)
    requires Writable(item)
    ensures Begins(ItemText(codec, item))
    ensures ItemText(codec, item)[0] != '('
  {
    match item
    case Decimal(d) =>
      ThousandthsTextStart(WrittenThousandths(d));
      hide ThousandthsText, WrittenThousandths;
    case Integer(_) =>
    case String(_) =>
    case Token(_) =>
    case ByteSequence(_) =>
    case Boolean(_) =>
  }

  lemma ItemBegins(codec: Codec, item: ParameterizedItem, rest: string)
    requires WriteItem(codec, item).Some?
    ensures Begins(WriteItem(codec, item).value + rest)
    ensures (WriteItem(codec, item).value + rest)[0] != '('
  {
    BareItemBegins(codec, item.item);
    hide ItemText, Writable;
    assert (WriteItem(codec, item).value + rest)[0] == ItemText(codec, item.item)[0];
  }

  /** One item of an inner list. */
  lemma InnerItemStep(codec: Codec, s: string, item: ParameterizedItem, tail: string)
    requires Faithful(codec)
    requires WriteItem(codec, item).Some?
    requires StartsWith(tail, ' ') || StartsWith(tail, ')')
    requires Skip(s, IsSpace) == WriteItem(codec, item).value + tail
    requires ReadInnerItems(codec, tail).Ok?
    ensures var r := ReadInnerItems(codec, tail);
            ReadInnerItems(codec, s) == Ok([NormalParameterizedItem(item)] + r.value, r.rest)
  {
    ItemRoundTrip(codec, item, tail);
    ItemBegins(codec, item, tail);
    hide ReadItem, WriteItem, Skip, NormalParameterizedItem, Faithful;
  }

  lemma {:induction false} SpacedItemsRoundTrip(codec: Codec, items: seq<ParameterizedItem>, rest: string)
    requires Faithful(codec)
    requires WriteSpacedItems(codec, items).Some?
    ensures ReadInnerItems(codec, WriteSpacedItems(codec, items).value + (")" + rest)) == Ok(NormalItems(items), rest)
  {
    hide ReadItem, WriteItem, Skip, NormalParameterizedItem, Faithful;
    var s := WriteSpacedItems(codec, items).value + (")" + rest);
    if items == [] {
      assert s == ")" + rest;
      SkipNothing(s, IsSpace);
    } else {
      var t := WriteItem(codec, items[0]).value;
      var tail := WriteSpacedItems(codec, items[1..]).value + (")" + rest);
      SpacedItemsRoundTrip(codec, items[1..], rest);
      assert s == [' '] + (t + tail);
      ItemBegins(codec, items[0], tail);
      SkipOne(' ', t + tail, IsSpace);
      InnerItemStep(codec, s, items[0], tail);
      assert NormalItems(items) == [NormalParameterizedItem(items[0])] + NormalItems(items[1..]);
    }
  }

  lemma InnerItemsRoundTrip(codec: Codec, items: seq<ParameterizedItem>, rest: string)
    requires Faithful(codec)
    requires WriteItems(codec, items).Some?
    ensures ReadInnerItems(codec, WriteItems(codec, items).value + (")" + rest)) == Ok(NormalItems(items), rest)
  {
    hide ReadItem, WriteItem, Skip, NormalParameterizedItem, Faithful;
    var s := WriteItems(codec, items).value + (")" + rest);
    if items == [] {
      assert s == ")" + rest;
      SkipNothing(s, IsSpace);
    } else {
      var t := WriteItem(codec, items[0]).value;
      var tail := WriteSpacedItems(codec, items[1..]).value + (")" + rest);
      SpacedItemsRoundTrip(codec, items[1..], rest);
      assert s == t + tail;
      ItemBegins(codec, items[0], tail);
      SkipNothing(s, IsSpace);
      InnerItemStep(codec, s, items[0], tail);
      assert NormalItems(items) == [NormalParameterizedItem(items[0])] + NormalItems(items[1..]);
    }
  }

  lemma InnerListRoundTrip(codec: Codec, m: Member, rest: string)
    requires Faithful(codec)
    requires m.isInnerList && WriteMember(codec, m).Some?
    requires Ends(rest)
    ensures ReadMember(codec, WriteMember(codec, m).value + rest) == Ok(NormalMember(m), rest)
  {
    hide ReadInnerItems, ReadParameters, WriteItems, WriteParameters, NormalParameters, NormalItems, Faithful, Ends;
    var items := WriteItems(codec, m.items).value;
    var params := WriteParameters(codec, m.params).value;
    var s := WriteMember(codec, m).value + rest;
    assert s == "(" + (items + (")" + (params + rest)));
    assert s[1..] == items + (")" + (params + rest));
    InnerItemsRoundTrip(codec, m.items, params + rest);
    ParametersRoundTrip(codec, m.params, rest);
  }

  lemma SingleItemRoundTrip(codec: Codec, m: Member, rest: string)
    requires Faithful(codec)
    requires IsMember(m) && !m.isInnerList && WriteMember(codec, m).Some?
    requires Ends(rest)
    ensures ReadMember(codec, WriteMember(codec, m).value + rest) == Ok(NormalMember(m), rest)
  {
    var item := ParameterizedItem(m.items[0].item, m.items[0].params + m.params);
    ParametersConcat(codec, m.items[0].params, m.params);
    hide ReadItem, WriteParameters, WriteBareItem, NormalParameters, NormalItem, Faithful, Ends;
    BothAssociative(WriteBareItem(codec, item.item), WriteParameters(codec, m.items[0].params),
                    WriteParameters(codec, m.params));
    assert WriteMember(codec, m) == WriteItem(codec, item);
    hide WriteMember, WriteItem;
    ItemRoundTrip(codec, item, rest);
    ItemBegins(codec, item, rest);
  }

  lemma MemberRoundTrip(codec: Codec, m: Member, rest: string)
    requires Faithful(codec)
    requires IsMember(m) && WriteMember(codec, m).Some?
    requires Ends(rest)
    ensures ReadMember(codec, WriteMember(codec, m).value + rest) == Ok(NormalMember(m), rest)
  {
    if m.isInnerList {
      InnerListRoundTrip(codec, m, rest);
    } else {
      SingleItemRoundTrip(codec, m, rest);
    }
  }

  lemma MemberBegins(codec: Codec, m: Member, rest: string)
    requires IsMember(m) && WriteMember(codec, m).Some?
    ensures Begins(WriteMember(codec, m).value + rest)
  {
    hide WriteItem, WriteItems, WriteParameters;
    if m.isInnerList {
      assert (WriteMember(codec, m).value + rest)[0] == '(';
    } else {
      var params := WriteParameters(codec, m.params).value;
      assert WriteMember(codec, m).value + rest == WriteItem(codec, m.items[0]).value + (params + rest);
      ItemBegins(codec, m.items[0], params + rest);
    }
  }

  // ---------------------------------------------------------------------------------------------
  // Lists

  /** A comma, a space and something more; or nothing. */
  lemma AfterMemberText(s: string)
    requires Begins(s)
    ensures AfterMember(", " + s) == Some(s)
  {
    assert !IsOws(s[0]) && !IsOws(',') && IsOws(' ');
    hide Begins, IsOws, Skip;
    SkipOne(' ', s, IsOws);
    SkipNothing(", " + s, IsOws);
    assert (", " + s)[1..] == [' '] + s;
  }

  lemma AfterMemberEnd()
    ensures AfterMember("") == Some("")
  {
    SkipNothing("", IsOws);
  }

  lemma OneMoreMember(codec: Codec, ms: Members)
    requires ms != [] && IsList(ms) && WriteMoreMembers(codec, ms).Some?
    ensures IsMember(ms[0]) && WriteMember(codec, ms[0]).Some? && WriteMoreMembers(codec, ms[1..]).Some?
    ensures var s := WriteMember(codec, ms[0]).value + WriteMoreMembers(codec, ms[1..]).value;
            WriteList(codec, ms) == Some(s) && WriteMoreMembers(codec, ms) == Some(", " + s)
  {
    hide WriteMember;
    var first, others := WriteMember(codec, ms[0]), WriteMoreMembers(codec, ms[1..]);
    assert WriteList(codec, ms) == Both(first, others);
    assert WriteMoreMembers(codec, ms) == Both(Both(Some(", "), first), others);
    hide WriteMoreMembers, WriteList;
    assert ", " + first.value + others.value == ", " + (first.value + others.value);
  }

  lemma MoreMembersText(codec: Codec, ms: Members)
    requires IsList(ms) && WriteMoreMembers(codec, ms).Some?
    ensures WriteList(codec, ms).Some?
    ensures Ends(WriteMoreMembers(codec, ms).value)
    ensures AfterMember(WriteMoreMembers(codec, ms).value) == Some(WriteList(codec, ms).value)
  {
    hide WriteMember, AfterMember, Begins, IsMember;
    if ms == [] {
      AfterMemberEnd();
    } else {
      OneMoreMember(codec, ms);
      hide WriteMoreMembers, WriteList;
      var t := WriteMember(codec, ms[0]).value;
      var tail := WriteMoreMembers(codec, ms[1..]).value;
      MemberBegins(codec, ms[0], tail);
      AfterMemberText(t + tail);
    }
  }

  lemma {:induction false} ReadListRoundTrip(codec: Codec, ms: Members)
    requires Faithful(codec)
    requires IsList(ms) && WriteList(codec, ms).Some?
    ensures ReadList(codec, WriteList(codec, ms).value) == Some(NormalList(ms))
    decreases |ms|
  {
    hide WriteMember, ReadMember, NormalMember, AfterMember, Faithful;
    if ms != [] {
      var t := WriteMember(codec, ms[0]).value;
      var tail := WriteMoreMembers(codec, ms[1..]).value;
      MoreMembersText(codec, ms[1..]);
      MemberRoundTrip(codec, ms[0], tail);
      MemberBegins(codec, ms[0], tail);
      ReadListRoundTrip(codec, ms[1..]);
      assert WriteList(codec, ms).value == t + tail;
      assert NormalList(ms) == [NormalMember(ms[0])] + NormalList(ms[1..]);
    }
  }

  /** Every list that can be written is read back in its normal form. */
  lemma ListRoundTrip(codec: Codec, ms: Members)
    requires Faithful(codec)
    requires IsList(ms) && WriteList(codec, ms).Some?
    ensures ParseList(codec, WriteList(codec, ms).value) == Some(NormalList(ms))
  {
    hide ReadList, WriteMember, Faithful, NormalList;
    if ms != [] {
      MemberBegins(codec, ms[0], WriteMoreMembers(codec, ms[1..]).value);
    }
    SkipNothing(WriteList(codec, ms).value, IsSpace);
    ReadListRoundTrip(codec, ms);
  }

  /** Every item that can be written is read back in its normal form. */
  lemma TopItemRoundTrip(codec: Codec, item: ParameterizedItem)
    requires Faithful(codec)
    requires WriteItem(codec, item).Some?
    ensures ParseItem(codec, WriteItem(codec, item).value) == Some(NormalParameterizedItem(item))
  {
    hide ReadItem, WriteItem, Faithful, NormalParameterizedItem;
    var s := WriteItem(codec, item).value;
    assert s + "" == s;
    ItemBegins(codec, item, "");
    SkipNothing(s, IsSpace);
    ItemRoundTrip(codec, item, "");
    SkipNothing("", IsSpace);
  }

  // ---------------------------------------------------------------------------------------------
  // Dictionaries

  lemma EntryValueRoundTrip(codec: Codec, m: Member, rest: string)
    requires Faithful(codec)
    requires IsTrue(m) || IsMember(m)
    requires WriteEntryValue(codec, m).Some?
    requires Ends(rest)
    ensures ReadDictionaryValue(codec, WriteEntryValue(codec, m).value + rest) == Ok(NormalEntryValue(m), rest)
    ensures var t := WriteEntryValue(codec, m).value + rest; Follows(t) || t[0] == '='
  {
    hide ReadMember, WriteMember, NormalMember, ReadParameters, WriteParameters, NormalParameters;
    hide Faithful, Follows, Ends;
    var s := WriteEntryValue(codec, m).value + rest;
    if IsTrue(m) {
      ParametersRoundTrip(codec, m.params, rest);
      ParametersStart(codec, m.params, rest);
      FollowsNotEquals(s);
    } else {
      MemberRoundTrip(codec, m, rest);
      assert s == "=" + (WriteMember(codec, m).value + rest);
      assert s[1..] == WriteMember(codec, m).value + rest;
    }
  }

  lemma FollowsNotEquals(s: string)
    requires Follows(s)
    ensures !StartsWith(s, '=')
  {
  }

  lemma EntryBegins(codec: Codec, e: (string, Member), rest: string)
    requires IsEntry(e) && WriteEntry(codec, e).Some?
    ensures Begins(WriteEntry(codec, e).value + rest)
  {
    hide WriteEntryValue;
    assert IsKeyChar(e.0[0]);
    assert (WriteEntry(codec, e).value + rest)[0] == e.0[0];
  }

  lemma MoreEntriesText(codec: Codec, d: Dictionary)
    requires IsDictionary(d) && WriteMoreEntries(codec, d).Some?
    ensures WriteDictionary(codec, d).Some?
    ensures Ends(WriteMoreEntries(codec, d).value)
    ensures AfterMember(WriteMoreEntries(codec, d).value) == Some(WriteDictionary(codec, d).value)
  {
    hide WriteEntry, AfterMember, Begins;
    if d == [] {
      AfterMemberEnd();
    } else {
      var t := WriteEntry(codec, d[0]).value;
      var tail := WriteMoreEntries(codec, d[1..]).value;
      EntryBegins(codec, d[0], tail);
      AfterMemberText(t + tail);
      assert WriteMoreEntries(codec, d).value == ", " + (t + tail);
    }
  }

  lemma {:induction false} RawDictionaryRoundTrip(codec: Codec, d: Dictionary)
    requires Faithful(codec)
    requires IsDictionary(d) && WriteDictionary(codec, d).Some?
    ensures ReadRawDictionary(codec, WriteDictionary(codec, d).value) == Some(NormalEntries(d))
    decreases |d|
  {
    hide WriteEntryValue, ReadDictionaryValue, NormalEntryValue, AfterMember, Faithful, ReadKey, IsKey;
    if d != [] {
      var key, value := d[0].0, WriteEntryValue(codec, d[0].1).value;
      var tail := WriteMoreEntries(codec, d[1..]).value;
      MoreEntriesText(codec, d[1..]);
      EntryValueRoundTrip(codec, d[0].1, tail);
      KeyRoundTrip(key, value + tail);
      EntryBegins(codec, d[0], tail);
      RawDictionaryRoundTrip(codec, d[1..]);
      assert WriteDictionary(codec, d).value == key + (value + tail);
      assert NormalEntries(d) == [(key, NormalEntryValue(d[0].1))] + NormalEntries(d[1..]);
    }
  }

  /** Every dictionary that can be written is read back in its normal form. */
  lemma DictionaryRoundTrip(codec: Codec, d: Dictionary)
    requires Faithful(codec)
    requires IsDictionary(d) && WriteDictionary(codec, d).Some?
    ensures ParseDictionary(codec, WriteDictionary(codec, d).value) == Some(NormalDictionary(d))
  {
    hide ReadRawDictionary, WriteEntry, Faithful, NormalEntries;
    if d != [] {
      EntryBegins(codec, d[0], WriteMoreEntries(codec, d[1..]).value);
    }
    SkipNothing(WriteDictionary(codec, d).value, IsSpace);
    RawDictionaryRoundTrip(codec, d);
  }
}
