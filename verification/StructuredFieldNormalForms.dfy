/** Values that are written but do not come back as they were: one for each reason. */
module StructuredFieldNormalForms {
  import opened Bytes
  import opened StructuredFields
  import opened StructuredFieldText
  import opened StructuredFieldItems
  import opened StructuredFieldRoundTrip
  import opened StructuredFieldCanonical

  lemma OneMember(codec: Codec, m: Member)
    requires Faithful(codec) && IsMember(m) && WriteMember(codec, m).Some?
    ensures IsList([m]) && WriteList(codec, [m]).Some?
    ensures ParseList(codec, WriteList(codec, [m]).value) == Some([NormalMember(m)])
  {
    hide Faithful, WriteMember, NormalMember, ParseList, IsMember;
    assert [m][1..] == [] && WriteMoreMembers(codec, []) == Some("");
    ListRoundTrip(codec, [m]);
    assert NormalList([m]) == [NormalMember(m)];
  }

  lemma OneParameter(codec: Codec, key: string, value: Item)
    requires IsKey(key) && (value.Null? || Canonical(value))
    ensures WriteParameters(codec, [(key, value)]).Some?
    ensures NormalParameters([(key, value)]) == [(key, if value.Null? then Boolean(true) else value)]
  {
    hide IsKey, Canonical, ItemText, Writable;
    CanonicalComesBack(value);
    NormalTrue();
    hide NormalItem;
    var ps := [(key, value)];
    assert ps[1..] == [] && WriteParameters(codec, []) == Some("");
    var raw := NormalValues(ps);
    assert raw == [(key, NormalItem(value))] && raw[..0] == [] && Merged(raw[..0]) == [];
  }

  lemma TwoParameters(codec: Codec, key: string, first: Item, second: Item)
    requires IsKey(key) && Canonical(first) && Canonical(second)
    ensures WriteParameters(codec, [(key, first), (key, second)]).Some?
    ensures NormalParameters([(key, first), (key, second)]) == [(key, second)]
  {
    OneParameter(codec, key, first);
    OneParameter(codec, key, second);
    CanonicalComesBack(first);
    CanonicalComesBack(second);
    hide IsKey, Canonical, NormalItem, ItemText, Writable;
    var ps := [(key, first), (key, second)];
    assert ps[1..] == [(key, second)];
    assert WriteParameter(codec, ps[0]).Some?;
    var raw := NormalValues(ps);
    assert raw == ps && raw[..1] == NormalValues([(key, first)]);
    assert Merged(raw) == Upsert(Merged(raw[..1]), key, second);
  }

  /** A parameter without a value reads back as true. */
  lemma NullReadsAsTrue(codec: Codec, item: Item, key: string)
    requires Faithful(codec) && Canonical(item) && IsKey(key)
    ensures var ms := [SingleItem(item, [(key, Null)])];
            && IsList(ms) && WriteList(codec, ms).Some? && !CanonicalList(ms)
            && ParseList(codec, WriteList(codec, ms).value) == Some([SingleItem(item, [(key, Boolean(true))])])
  {
    hide Faithful, Canonical, IsKey, IsList, CanonicalList, ParseList, WriteList, WriteParameters, NormalParameters;
    var ps: Entries<Item> := [(key, Null)];
    SingleItemReads(codec, item, ps);
    OneParameter(codec, key, Null);
    var ms, back := [SingleItem(item, ps)], [SingleItem(item, [(key, Boolean(true))])];
    assert ms[0].params[0].1 != back[0].params[0].1;
    ListIsCanonical(codec, ms, "");
  }

  lemma SingleItemReads(codec: Codec, item: Item, ps: Entries<Item>)
    requires Faithful(codec) && Canonical(item)
    ensures var ms := [SingleItem(item, ps)];
            && IsList(ms)
            && (WriteParameters(codec, ps).Some? ==>
                  && WriteList(codec, ms).Some?
                  && ParseList(codec, WriteList(codec, ms).value) == Some([SingleItem(item, NormalParameters(ps))]))
  {
    var m := SingleItem(item, ps);
    if WriteParameters(codec, ps).Some? {
      NoParametersText(codec);
      CanonicalComesBack(item);
      hide Faithful, Canonical, ParseList, WriteParameters, NormalParameters, NormalItem, ItemText, Writable, WriteList;
      OneMember(codec, m);
      assert [] + ps == ps;
    }
  }

  /** Of two parameters with the same key the second reads back. */
  lemma RepeatedKeyReadsOnce(codec: Codec, item: Item, key: string, first: Item, second: Item)
    requires Faithful(codec) && Canonical(item) && IsKey(key) && Canonical(first) && Canonical(second)
    ensures var ms := [SingleItem(item, [(key, first), (key, second)])];
            && IsList(ms) && WriteList(codec, ms).Some? && !CanonicalList(ms)
            && ParseList(codec, WriteList(codec, ms).value) == Some([SingleItem(item, [(key, second)])])
  {
    var ps := [(key, first), (key, second)];
    SingleItemReads(codec, item, ps);
    TwoParameters(codec, key, first, second);
    hide Faithful, Canonical, IsKey, ParseList, WriteList, WriteParameters, NormalParameters;
    ListIsCanonical(codec, [SingleItem(item, ps)], "");
    assert |ps| == 2;
  }

  /** The parameters of a single item read back as those of its member. */
  lemma InnerParametersMove(codec: Codec, item: Item, key: string, value: Item)
    requires Faithful(codec) && Canonical(item) && IsKey(key) && Canonical(value)
    ensures var ms := [Member([ParameterizedItem(item, [(key, value)])], false, [])];
            && IsList(ms) && WriteList(codec, ms).Some? && !CanonicalList(ms)
            && ParseList(codec, WriteList(codec, ms).value) == Some([SingleItem(item, [(key, value)])])
  {
    var ps := [(key, value)];
    var m := Member([ParameterizedItem(item, ps)], false, []);
    OneParameter(codec, key, value);
    NoParametersText(codec);
    CanonicalComesBack(item);
    hide Faithful, Canonical, IsKey, ParseList, WriteList, WriteParameters, NormalParameters;
    hide NormalItem, ItemText, Writable;
    OneMember(codec, m);
    assert ps + [] == ps;
    ListIsCanonical(codec, [m], "");
    assert m.params != ps;
  }

  /** Of two dictionary entries with the same key the second reads back. */
  lemma RepeatedEntryReadsOnce(codec: Codec, key: string, first: Member, second: Member)
    requires Faithful(codec) && IsKey(key) && CanonicalMember(first) && CanonicalMember(second)
    ensures var d := [(key, first), (key, second)];
            && IsDictionary(d) && WriteDictionary(codec, d).Some? && !CanonicalDictionary(d)
            && ParseDictionary(codec, WriteDictionary(codec, d).value) == Some([(key, second)])
  {
    var a, b := (key, first), (key, second);
    var d := [a, b];
    hide Faithful, IsKey, CanonicalMember, WriteEntry, ParseDictionary, NormalEntryValue, IsEntry;
    EntryFixed(codec, a);
    EntryFixed(codec, b);
    assert d[1..] == [b] && [b][1..] == [] && WriteMoreEntries(codec, []) == Some("");
    assert WriteMoreEntries(codec, [b]).Some?;
    DictionaryRoundTrip(codec, d);
    assert NormalEntries(d) == d && d[..1] == [a] && [a][..0] == [];
    assert Merged(d[..1]) == [a];
    assert Merged(d) == [b];
    DictionaryIsCanonical(codec, d, "");
    assert |d| == 2;
  }
}
