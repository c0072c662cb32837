/** The texts of parameters, items, inner lists and members, said of the characters alone (RFC 8941, section 3), and
    that the parser takes exactly these. */
module StructuredFieldMemberTexts {
  import opened Bytes
  import opened Doubles
  import opened Sequences
  import opened StructuredFields
  import opened StructuredFieldText
  import opened StructuredFieldItems
  import opened StructuredFieldBareTexts

  // ---------------------------------------------------------------------------------------------
  // White space

  predicate Spaces(s: string) {
    forall i :: 0 <= i < |s| ==> s[i] == ' '
  }

  /** Spaces and tabs. */
  predicate Gap(s: string) {
    forall i :: 0 <= i < |s| ==> s[i] == ' ' || s[i] == '\t'
  }

  lemma SkipSpaces(spaces: string, s: string)
    requires Spaces(spaces) && (s == [] || s[0] != ' ')
    ensures Skip(spaces + s, IsSpace) == s
  {
    SpanStops(spaces, s, IsSpace);
  }

  lemma SkipGap(gap: string, s: string)
    requires Gap(gap) && (s == [] || s[0] !in " \t")
    ensures Skip(gap + s, IsOws) == s
  {
    SpanStops(gap, s, IsOws);
  }

  lemma SkippedSpaces(s: string) returns (spaces: string)
    ensures Spaces(spaces) && s == spaces + Skip(s, IsSpace)
    ensures Skip(s, IsSpace) == [] || Skip(s, IsSpace)[0] != ' '
  {
    hide Span;
    var n := Span(s, IsSpace);
    spaces := s[..n];
    assert forall i :: 0 <= i < n ==> IsSpace(s[i]);
  }

  lemma SkippedGap(s: string) returns (gap: string)
    ensures Gap(gap) && s == gap + Skip(s, IsOws)
    ensures Skip(s, IsOws) == [] || Skip(s, IsOws)[0] !in " \t"
  {
    hide Span;
    var n := Span(s, IsOws);
    gap := s[..n];
    assert forall i :: 0 <= i < n ==> IsOws(s[i]);
  }

  // ---------------------------------------------------------------------------------------------
  // Texts

  /** The value of a parameter; without one it is true. */
  ghost predicate ValueIs(codec: Codec, v: string, item: Item) {
    (v == "" && item == Boolean(true)) || exists x: string :: BareIs(codec, x, item) && v == "=" + x
  }

  /** A semicolon, spaces, a key and its value. */
  ghost predicate ParameterIs(codec: Codec, b: string, p: (string, Item)) {
    && IsKey(p.0)
    && exists spaces: string, v: string ::
         Spaces(spaces) && ValueIs(codec, v, p.1) && b == ";" + (spaces + (p.0 + v))
  }

  ghost predicate ParametersOf(codec: Codec, parts: seq<string>, raw: Entries<Item>) {
    |parts| == |raw| && forall i :: 0 <= i < |raw| ==> ParameterIs(codec, parts[i], raw[i])
  }

  /** One parameter after another; keys that come more than once are merged. */
  ghost predicate ParametersAre(codec: Codec, b: string, ps: Entries<Item>) {
    exists parts: seq<string>, raw: Entries<Item> ::
      ParametersOf(codec, parts, raw) && b == Concat(parts) && ps == Merged(raw)
  }

  ghost predicate ItemIs(codec: Codec, b: string, item: ParameterizedItem) {
    exists x: string, ps: string ::
      BareIs(codec, x, item.item) && ParametersAre(codec, ps, item.params) && b == x + ps
  }

  /** One separator between any two texts. */
  predicate Fits(texts: seq<string>, seps: seq<string>) {
    texts != [] ==> |seps| == |texts| - 1
  }

  /** Texts with separators between them. */
  function Joined(texts: seq<string>, seps: seq<string>): string
    requires Fits(texts, seps)
  {
    if texts == [] then ""
    else if |texts| == 1 then texts[0]
    else texts[0] + (seps[0] + Joined(texts[1..], seps[1..]))
  }

  /** Items with spaces around them; there must be some between two items. */
  ghost predicate InnerItemsOf(codec: Codec, lead: string, texts: seq<string>, seps: seq<string>, trail: string,
                               items: seq<ParameterizedItem>) {
    && Spaces(lead) && Spaces(trail) && Fits(texts, seps) && |texts| == |items|
    && (forall i :: 0 <= i < |items| ==> ItemIs(codec, texts[i], items[i]))
    && (forall i :: 0 <= i < |seps| ==> Spaces(seps[i]) && seps[i] != [])
  }

  /** Items in parentheses. */
  ghost predicate InnerItemsAre(codec: Codec, b: string, items: seq<ParameterizedItem>) {
    exists lead: string, texts: seq<string>, seps: seq<string>, trail: string ::
      InnerItemsOf(codec, lead, texts, seps, trail, items)
      && b == "(" + (lead + (Joined(texts, seps) + (trail + ")")))
  }

  /** What stands in front of the parameters of a member. */
  ghost predicate HeadIs(codec: Codec, b: string, m: Member) {
    if m.isInnerList then InnerItemsAre(codec, b, m.items)
    else |m.items| == 1 && m.items[0].params == [] && BareIs(codec, b, m.items[0].item)
  }

  ghost predicate MemberIs(codec: Codec, b: string, m: Member) {
    exists head: string, ps: string :: HeadIs(codec, head, m) && ParametersAre(codec, ps, m.params) && b == head + ps
  }

  /** What can come behind parameters. */
  predicate Done(rest: string) {
    rest == [] || rest[0] in " \t,)"
  }

  /** Something, and its last character is neither white space nor a comma. */
  predicate EndsWell(b: string) {
    b != [] && b[|b| - 1] !in " \t,"
  }

  // ---------------------------------------------------------------------------------------------
  // Parameters

  lemma ValueIsRead(codec: Codec, v: string, item: Item, rest: string)
    requires ValueIs(codec, v, item) && Stops(rest)
    ensures Stops(v + rest) || (v + rest)[0] == '='
    ensures var s := v + rest;
            if StartsWith(s, '=') then ReadBareItem(codec, s[1..]) == Ok(item, rest)
            else s == rest && item == Boolean(true)
  {
    hide ReadBareItem, BareIs;
    if v == "" {
      assert v + rest == rest;
    } else {
      var x: string :| BareIs(codec, x, item) && v == "=" + x;
      BareIsRead(codec, x, item, rest);
      assert v + rest == "=" + (x + rest);
    }
  }

  lemma KeyBegins(key: string)
    requires IsKey(key)
    ensures key != [] && key[0] != ' ' && EndsWell(key)
  {
    assert IsKeyChar(key[0]) && IsKeyChar(key[|key| - 1]);
  }

  /** A key and its value, behind spaces. */
  lemma KeyAndValueAreRead(codec: Codec, spaces: string, key: string, v: string, item: Item, rest: string)
    requires Spaces(spaces) && IsKey(key) && ValueIs(codec, v, item) && Stops(rest)
    ensures ReadParameter(codec, spaces + (key + (v + rest))) == Ok((key, item), rest)
  {
    hide IsKey, Spaces, Stops, ReadKey, ReadBareItem, Skip, ValueIs, EndsWell;
    KeyBegins(key);
    ValueIsRead(codec, v, item, rest);
    KeyIsRead(key, v + rest);
    assert (key + (v + rest))[0] == key[0];
    SkipSpaces(spaces, key + (v + rest));
  }

  lemma ParameterIsRead(codec: Codec, b: string, p: (string, Item), rest: string)
    requires ParameterIs(codec, b, p) && Stops(rest)
    ensures StartsWith(b + rest, ';') && ReadParameter(codec, (b + rest)[1..]) == Ok(p, rest)
  {
    hide IsKey, Spaces, Stops, ReadParameter, ValueIs;
    var spaces: string, v: string :| Spaces(spaces) && ValueIs(codec, v, p.1) && b == ";" + (spaces + (p.0 + v));
    KeyAndValueAreRead(codec, spaces, p.0, v, p.1, rest);
    assert b + rest == ";" + (spaces + (p.0 + (v + rest)));
  }

  lemma ParametersStop(codec: Codec, parts: seq<string>, raw: Entries<Item>, rest: string)
    requires ParametersOf(codec, parts, raw) && Done(rest)
    ensures Stops(Concat(parts) + rest)
  {
    if parts == [] {
      assert Concat(parts) + rest == rest;
    } else {
      assert ParameterIs(codec, parts[0], raw[0]);
      assert parts[0][0] == ';';
      assert (Concat(parts) + rest)[0] == ';';
    }
  }

  lemma RawParametersNext(codec: Codec, b: string, p: (string, Item), tail: string)
    requires ParameterIs(codec, b, p) && Stops(tail) && ReadRawParameters(codec, tail).Ok?
    ensures var Ok(raw, rest) := ReadRawParameters(codec, tail);
            ReadRawParameters(codec, b + tail) == Ok([p] + raw, rest)
  {
    hide ParameterIs, ReadParameter, Stops;
    ParameterIsRead(codec, b, p, tail);
  }

  lemma ConcatStep(parts: seq<string>, rest: string)
    requires parts != []
    ensures Concat(parts) + rest == parts[0] + (Concat(parts[1..]) + rest)
  {
  }

  lemma ParametersTail(codec: Codec, parts: seq<string>, raw: Entries<Item>)
    requires ParametersOf(codec, parts, raw) && parts != []
    ensures ParameterIs(codec, parts[0], raw[0]) && ParametersOf(codec, parts[1..], raw[1..])
  {
    hide ParameterIs;
  }

  lemma {:induction false} RawParametersAreRead(codec: Codec, parts: seq<string>, raw: Entries<Item>, rest: string)
    requires ParametersOf(codec, parts, raw) && Done(rest)
    ensures ReadRawParameters(codec, Concat(parts) + rest) == Ok(raw, rest)
    decreases |parts|
  {
    hide ParameterIs, Stops, Concat, ReadParameter;
    if parts == [] {
      NoParts(codec, rest);
    } else {
      hide ReadRawParameters, Done;
      ParametersTail(codec, parts, raw);
      ParametersStop(codec, parts[1..], raw[1..], rest);
      RawParametersAreRead(codec, parts[1..], raw[1..], rest);
      RawParametersNext(codec, parts[0], raw[0], Concat(parts[1..]) + rest);
      ConcatStep(parts, rest);
      assert raw == [raw[0]] + raw[1..];
    }
  }

  lemma ParameterWasRead(codec: Codec, s: string) returns (b: string)
    requires StartsWith(s, ';') && ReadParameter(codec, s[1..]).Ok?
    ensures var Ok(p, rest) := ReadParameter(codec, s[1..]); ParameterIs(codec, b, p) && s == b + rest
  {
    hide ReadKey, ReadBareItem, Skip, IsKey, Spaces, BareIs;
    var spaces := SkippedSpaces(s[1..]);
    var t := Skip(s[1..], IsSpace);
    KeyWasRead(t);
    var Ok(key, rest) := ReadKey(t);
    var v := "";
    if StartsWith(rest, '=') {
      var x := BareWasRead(codec, rest[1..]);
      v := "=" + x;
      assert rest == "=" + rest[1..];
    }
    b := ";" + (spaces + (key + v));
    assert s == ";" + s[1..];
    assert ValueIs(codec, v, ReadParameter(codec, s[1..]).value.1);
    assert rest == v + ReadParameter(codec, s[1..]).rest;
    assert s == b + ReadParameter(codec, s[1..]).rest;
  }

  lemma ConcatCons(b: string, others: seq<string>, rest: string)
    ensures Concat([b] + others) + rest == b + (Concat(others) + rest)
  {
    assert ([b] + others)[1..] == others;
  }

  lemma ParametersCons(codec: Codec, b: string, p: (string, Item), parts: seq<string>, raw: Entries<Item>)
    requires ParameterIs(codec, b, p) && ParametersOf(codec, parts, raw)
    ensures ParametersOf(codec, [b] + parts, [p] + raw)
  {
    hide ParameterIs;
  }

  lemma {:induction false} RawParametersWereRead(codec: Codec, s: string) returns (parts: seq<string>)
    requires ReadRawParameters(codec, s).Ok?
    ensures var Ok(raw, rest) := ReadRawParameters(codec, s);
            ParametersOf(codec, parts, raw) && s == Concat(parts) + rest
    decreases |s|
  {
    hide ParameterIs, ReadParameter, Concat, ParametersOf;
    if !StartsWith(s, ';') {
      parts := [];
      NoParts(codec, s);
    } else {
      var b := ParameterWasRead(codec, s);
      var Ok(p, tail) := ReadParameter(codec, s[1..]);
      var others := RawParametersWereRead(codec, tail);
      var Ok(raw, rest) := ReadRawParameters(codec, tail);
      parts := [b] + others;
      ConcatCons(b, others, rest);
      ParametersCons(codec, b, p, others, raw);
    }
  }

  lemma NoParts(codec: Codec, s: string)
    ensures ParametersOf(codec, [], []) && Concat<char>([]) + s == s
  {
  }

  lemma ParametersAreRead(codec: Codec, b: string, ps: Entries<Item>, rest: string)
    requires ParametersAre(codec, b, ps) && Done(rest)
    ensures ReadParameters(codec, b + rest) == Ok(ps, rest)
    ensures Stops(b + rest)
  {
    hide ParametersOf, ReadRawParameters, Merged, Concat, Done, Stops;
    var parts: seq<string>, raw: Entries<Item> :|
      ParametersOf(codec, parts, raw) && b == Concat(parts) && ps == Merged(raw);
    RawParametersAreRead(codec, parts, raw, rest);
    ParametersStop(codec, parts, raw, rest);
  }

  lemma ParametersWereRead(codec: Codec, s: string) returns (b: string)
    requires ReadParameters(codec, s).Ok?
    ensures var Ok(ps, rest) := ReadParameters(codec, s); ParametersAre(codec, b, ps) && s == b + rest
  {
    hide ParametersOf, ReadRawParameters, Merged, Concat;
    var parts := RawParametersWereRead(codec, s);
    b := Concat(parts);
  }

  // ---------------------------------------------------------------------------------------------
  // Items

  lemma ItemIsRead(codec: Codec, b: string, item: ParameterizedItem, rest: string)
    requires ItemIs(codec, b, item) && Done(rest)
    ensures ReadItem(codec, b + rest) == Ok(item, rest)
  {
    hide BareIs, ParametersAre, ReadBareItem, ReadParameters, Done, Stops;
    var x: string, ps: string :|
      BareIs(codec, x, item.item) && ParametersAre(codec, ps, item.params) && b == x + ps;
    ParametersAreRead(codec, ps, item.params, rest);
    BareIsRead(codec, x, item.item, ps + rest);
    assert b + rest == x + (ps + rest);
  }

  lemma ItemWasRead(codec: Codec, s: string) returns (b: string)
    requires ReadItem(codec, s).Ok?
    ensures var Ok(item, rest) := ReadItem(codec, s); ItemIs(codec, b, item) && s == b + rest
  {
    hide BareIs, ParametersAre, ReadBareItem, ReadParameters;
    var x := BareWasRead(codec, s);
    var ps := ParametersWereRead(codec, ReadBareItem(codec, s).rest);
    b := x + ps;
    assert s == b + ReadItem(codec, s).rest;
  }

  lemma ItemBegins(codec: Codec, b: string, item: ParameterizedItem)
    requires ItemIs(codec, b, item)
    ensures b != [] && b[0] !in " \t,;)(="
  {
    hide BareIs, ParametersAre;
    var x: string, ps: string :|
      BareIs(codec, x, item.item) && ParametersAre(codec, ps, item.params) && b == x + ps;
    BareBegins(codec, x, item.item);
    assert b[0] == x[0];
  }

  // ---------------------------------------------------------------------------------------------
  // Inner lists

  lemma JoinedFirst(texts: seq<string>, seps: seq<string>)
    requires texts != [] && texts[0] != [] && Fits(texts, seps)
    ensures Joined(texts, seps) != [] && Joined(texts, seps)[0] == texts[0][0]
  {
  }

  /** The closing parenthesis, with spaces in front of it. */
  lemma InnerItemsEnd(codec: Codec, spaces: string, rest: string)
    requires Spaces(spaces)
    ensures ReadInnerItems(codec, spaces + (")" + rest)) == Ok([], rest)
  {
    var t := ")" + rest;
    SkipSpaces(spaces, t);
    assert t[0] == ')' && t[1..] == rest;
    hide ReadItem, Skip;
  }

  /** One more item, with spaces in front of it. */
  lemma InnerItemsNext(codec: Codec, spaces: string, b: string, item: ParameterizedItem, tail: string)
    requires Spaces(spaces) && ItemIs(codec, b, item)
    requires StartsWith(tail, ' ') || StartsWith(tail, ')')
    requires ReadInnerItems(codec, tail).Ok?
    ensures var Ok(others, rest) := ReadInnerItems(codec, tail);
            ReadInnerItems(codec, spaces + (b + tail)) == Ok([item] + others, rest)
  {
    ItemBegins(codec, b, item);
    var t := b + tail;
    assert t[0] == b[0];
    SkipSpaces(spaces, t);
    ItemIsRead(codec, b, item, tail);
    hide ReadItem, Skip, ItemIs;
  }

  /** The first text of several, and what is behind it. */
  lemma JoinedStep(texts: seq<string>, seps: seq<string>, end: string)
    requires |texts| > 1 && Fits(texts, seps)
    ensures Joined(texts, seps) + end == texts[0] + (seps[0] + (Joined(texts[1..], seps[1..]) + end))
  {
    hide Joined;
    JoinedUnfolds(texts, seps);
    var others := Joined(texts[1..], seps[1..]);
    assert texts[0] + (seps[0] + others) + end == texts[0] + (seps[0] + (others + end));
  }

  lemma JoinedUnfolds(texts: seq<string>, seps: seq<string>)
    requires |texts| > 1 && Fits(texts, seps)
    ensures Joined(texts, seps) == texts[0] + (seps[0] + Joined(texts[1..], seps[1..]))
  {
  }

  /** One more text in front of others. */
  lemma JoinedCons(b: string, sep: string, texts: seq<string>, seps: seq<string>, end: string)
    requires texts != [] && Fits(texts, seps)
    ensures Fits([b] + texts, [sep] + seps)
    ensures Joined([b] + texts, [sep] + seps) + end == b + (sep + (Joined(texts, seps) + end))
  {
    hide Joined;
    assert ([b] + texts)[1..] == texts && ([sep] + seps)[1..] == seps;
    JoinedStep([b] + texts, [sep] + seps, end);
  }

  lemma InnerItemsTail(codec: Codec, lead: string, texts: seq<string>, seps: seq<string>, trail: string,
                       items: seq<ParameterizedItem>)
    requires |items| > 1 && InnerItemsOf(codec, lead, texts, seps, trail, items)
    ensures InnerItemsOf(codec, seps[0], texts[1..], seps[1..], trail, items[1..])
  {
    hide ItemIs, Spaces;
  }

  lemma InnerItemsEmpty(codec: Codec, lead: string, trail: string, rest: string)
    requires Spaces(lead) && Spaces(trail)
    ensures ReadInnerItems(codec, lead + ("" + (trail + (")" + rest)))) == Ok([], rest)
  {
    hide ReadInnerItems;
    InnerItemsEnd(codec, lead + trail, rest);
    assert lead + ("" + (trail + (")" + rest))) == lead + trail + (")" + rest);
  }

  lemma InnerItemsOne(codec: Codec, lead: string, b: string, item: ParameterizedItem, trail: string, rest: string)
    requires Spaces(lead) && Spaces(trail) && ItemIs(codec, b, item)
    ensures ReadInnerItems(codec, lead + (b + (trail + (")" + rest)))) == Ok([item], rest)
  {
    hide ReadInnerItems, ItemIs;
    var end := trail + (")" + rest);
    InnerItemsEnd(codec, trail, rest);
    assert end[0] == if trail == [] then ')' else trail[0];
    InnerItemsNext(codec, lead, b, item, end);
    assert [item] + [] == [item];
  }

  lemma {:induction false} InnerItemsAreRead(codec: Codec, lead: string, texts: seq<string>, seps: seq<string>,
                                             trail: string, items: seq<ParameterizedItem>, rest: string)
    requires InnerItemsOf(codec, lead, texts, seps, trail, items)
    ensures ReadInnerItems(codec, lead + (Joined(texts, seps) + (trail + (")" + rest)))) == Ok(items, rest)
    decreases |items|
  {
    hide ItemIs, ReadInnerItems;
    var end := trail + (")" + rest);
    if items == [] {
      InnerItemsEmpty(codec, lead, trail, rest);
    } else if |items| == 1 {
      InnerItemsOne(codec, lead, texts[0], items[0], trail, rest);
      assert [items[0]] == items;
    } else {
      hide Joined;
      InnerItemsTail(codec, lead, texts, seps, trail, items);
      JoinedStep(texts, seps, end);
      var others := Joined(texts[1..], seps[1..]) + end;
      InnerItemsAreRead(codec, seps[0], texts[1..], seps[1..], trail, items[1..], rest);
      assert (seps[0] + others)[0] == ' ';
      InnerItemsNext(codec, lead, texts[0], items[0], seps[0] + others);
      assert [items[0]] + items[1..] == items;
    }
  }

  lemma NoSpaces()
    ensures Spaces("")
  {
  }

  /** The last item. */
  lemma InnerItemsLast(codec: Codec, spaces: string, b: string, item: ParameterizedItem, lead: string, trail: string,
                       rest: string)
    requires Spaces(spaces) && ItemIs(codec, b, item) && Spaces(lead) && Spaces(trail)
    ensures InnerItemsOf(codec, spaces, [b], [], lead + trail, [item])
    ensures b + (lead + ("" + (trail + (")" + rest)))) == Joined([b], []) + (lead + trail + (")" + rest))
  {
    hide ItemIs;
  }

  /** One more item and its spaces in front of others. */
  lemma InnerItemsCons(codec: Codec, spaces: string, b: string, item: ParameterizedItem, lead: string,
                       texts: seq<string>, seps: seq<string>, trail: string, items: seq<ParameterizedItem>)
    requires Spaces(spaces) && ItemIs(codec, b, item) && InnerItemsOf(codec, lead, texts, seps, trail, items)
    requires items != [] && lead != []
    ensures InnerItemsOf(codec, spaces, [b] + texts, [lead] + seps, trail, [item] + items)
  {
    hide ItemIs, Spaces;
  }

  /** Between two items there is a space. */
  lemma InnerItemsApart(codec: Codec, lead: string, texts: seq<string>, seps: seq<string>, trail: string,
                        items: seq<ParameterizedItem>, end: string)
    requires InnerItemsOf(codec, lead, texts, seps, trail, items) && items != []
    requires var tail := lead + (Joined(texts, seps) + end); StartsWith(tail, ' ') || StartsWith(tail, ')')
    ensures lead != []
  {
    ItemBegins(codec, texts[0], items[0]);
    JoinedFirst(texts, seps);
    hide ItemIs, Joined, Spaces;
    var joined := Joined(texts, seps) + end;
    assert joined[0] == Joined(texts, seps)[0];
    assert [] + joined == joined;
  }

  lemma {:induction false} InnerItemsWereRead(codec: Codec, s: string)
    returns (lead: string, texts: seq<string>, seps: seq<string>, trail: string)
    requires ReadInnerItems(codec, s).Ok?
    ensures var Ok(items, rest) := ReadInnerItems(codec, s);
            && InnerItemsOf(codec, lead, texts, seps, trail, items)
            && s == lead + (Joined(texts, seps) + (trail + (")" + rest)))
    decreases |s|
  {
    hide Skip, ReadItem, ItemIs, Spaces;
    lead := SkippedSpaces(s);
    var t := Skip(s, IsSpace);
    if StartsWith(t, ')') {
      texts, seps, trail := [], [], "";
      NoSpaces();
      assert t == ")" + t[1..];
      assert s == lead + ("" + ("" + (")" + t[1..])));
    } else {
      var b := ItemWasRead(codec, t);
      var Ok(item, tail) := ReadItem(codec, t);
      var lead0, texts0, seps0, trail0 := InnerItemsWereRead(codec, tail);
      var Ok(items, rest) := ReadInnerItems(codec, tail);
      hide ReadInnerItems;
      var end := trail0 + (")" + rest);
      if items == [] {
        texts, seps, trail := [b], [], lead0 + trail0;
        InnerItemsLast(codec, lead, b, item, lead0, trail0, rest);
      } else {
        texts, seps, trail := [b] + texts0, [lead0] + seps0, trail0;
        InnerItemsApart(codec, lead0, texts0, seps0, trail0, items, end);
        InnerItemsCons(codec, lead, b, item, lead0, texts0, seps0, trail0, items);
        JoinedCons(b, lead0, texts0, seps0, end);
      }
    }
  }

  // ---------------------------------------------------------------------------------------------
  // Members

  lemma InnerListIsRead(codec: Codec, head: string, m: Member, ps: string, rest: string)
    requires m.isInnerList && InnerItemsAre(codec, head, m.items) && ParametersAre(codec, ps, m.params) && Done(rest)
    ensures ReadMember(codec, head + (ps + rest)) == Ok(m, rest)
  {
    hide ReadInnerItems, ReadParameters, ParametersAre, ItemIs, Spaces, Joined, Done, ReadItem;
    var lead: string, texts: seq<string>, seps: seq<string>, trail: string :|
      InnerItemsOf(codec, lead, texts, seps, trail, m.items)
      && head == "(" + (lead + (Joined(texts, seps) + (trail + ")")));
    InnerItemsAreRead(codec, lead, texts, seps, trail, m.items, ps + rest);
    ParametersAreRead(codec, ps, m.params, rest);
    var s := lead + (Joined(texts, seps) + (trail + (")" + (ps + rest))));
    assert head + (ps + rest) == "(" + s;
    assert ("(" + s)[1..] == s;
  }

  lemma SingleItemIsRead(codec: Codec, head: string, m: Member, ps: string, rest: string)
    requires !m.isInnerList && HeadIs(codec, head, m) && ParametersAre(codec, ps, m.params) && Done(rest)
    ensures ReadMember(codec, head + (ps + rest)) == Ok(m, rest)
  {
    hide BareIs, ParametersAre, ReadBareItem, ReadParameters, Done, Stops, ReadInnerList;
    ParametersAreRead(codec, ps, m.params, rest);
    BareIsRead(codec, head, m.items[0].item, ps + rest);
    BareBegins(codec, head, m.items[0].item);
    assert (head + (ps + rest))[0] == head[0];
    assert m.items == [ParameterizedItem(m.items[0].item, [])];
  }

  lemma MemberIsRead(codec: Codec, b: string, m: Member, rest: string)
    requires MemberIs(codec, b, m) && Done(rest)
    ensures ReadMember(codec, b + rest) == Ok(m, rest)
  {
    hide ReadMember, ParametersAre, InnerItemsAre, BareIs, Done;
    var head: string, ps: string :| HeadIs(codec, head, m) && ParametersAre(codec, ps, m.params) && b == head + ps;
    assert b + rest == head + (ps + rest);
    if m.isInnerList {
      InnerListIsRead(codec, head, m, ps, rest);
    } else {
      SingleItemIsRead(codec, head, m, ps, rest);
    }
  }

  lemma InnerListWasRead(codec: Codec, s: string) returns (b: string)
    requires ReadInnerList(codec, s).Ok?
    ensures var Ok(m, rest) := ReadInnerList(codec, s); MemberIs(codec, b, m) && s == b + rest
  {
    hide ReadInnerItems, ReadParameters, ParametersAre, ItemIs, Spaces, Joined;
    var lead, texts, seps, trail := InnerItemsWereRead(codec, s[1..]);
    var Ok(items, tail) := ReadInnerItems(codec, s[1..]);
    var ps := ParametersWereRead(codec, tail);
    var Ok(params, rest) := ReadParameters(codec, tail);
    var head := "(" + (lead + (Joined(texts, seps) + (trail + ")")));
    assert HeadIs(codec, head, Member(items, true, params));
    b := head + ps;
    assert s == "(" + s[1..];
    assert s == head + (ps + rest);
  }

  lemma MemberWasRead(codec: Codec, s: string) returns (b: string)
    requires ReadMember(codec, s).Ok?
    ensures var Ok(m, rest) := ReadMember(codec, s); MemberIs(codec, b, m) && s == b + rest
  {
    hide ReadInnerList, ReadBareItem, ReadParameters, ParametersAre, BareIs, InnerItemsAre;
    if StartsWith(s, '(') {
      b := InnerListWasRead(codec, s);
    } else {
      var head := BareWasRead(codec, s);
      var ps := ParametersWereRead(codec, ReadBareItem(codec, s).rest);
      var m := ReadMember(codec, s).value;
      assert HeadIs(codec, head, m);
      b := head + ps;
      assert s == b + ReadMember(codec, s).rest;
    }
  }

  /** In front of white space, a comma or the end, a member is read if and only if its text is there. */
  lemma MemberExactly(codec: Codec, s: string, m: Member, rest: string)
    requires Done(rest)
    ensures ReadMember(codec, s) == Ok(m, rest) <==> exists b: string :: MemberIs(codec, b, m) && s == b + rest
  {
    hide ReadMember, MemberIs, Done;
    if ReadMember(codec, s) == Ok(m, rest) {
      var b := MemberWasRead(codec, s);
    }
    forall b: string | MemberIs(codec, b, m) && s == b + rest ensures ReadMember(codec, s) == Ok(m, rest) {
      MemberIsRead(codec, b, m, rest);
    }
  }

  // ---------------------------------------------------------------------------------------------
  // How members begin and end

  lemma HeadBegins(codec: Codec, b: string, m: Member)
    requires HeadIs(codec, b, m)
    ensures b != [] && b[0] !in " \t,"
  {
    hide BareIs, InnerItemsOf, Joined, Fits;
    if !m.isInnerList {
      BareBegins(codec, b, m.items[0].item);
    }
  }

  lemma MemberBegins(codec: Codec, b: string, m: Member)
    requires MemberIs(codec, b, m)
    ensures b != [] && b[0] !in " \t,"
  {
    hide HeadIs, ParametersAre;
    var head: string, ps: string :| HeadIs(codec, head, m) && ParametersAre(codec, ps, m.params) && b == head + ps;
    HeadBegins(codec, head, m);
    assert b[0] == head[0];
  }

  lemma EndsBehind(a: string, b: string)
    requires EndsWell(b) || (b == [] && EndsWell(a))
    ensures EndsWell(a + b)
  {
    if b == [] {
      assert a + b == a;
    } else {
      assert (a + b)[|a + b| - 1] == b[|b| - 1];
    }
  }

  lemma DigitsEnd(s: string)
    requires AllDigits(s) && s != []
    ensures EndsWell(s)
  {
    assert IsDigit(s[|s| - 1]);
  }

  lemma IntegerEnds(b: string, n: int)
    requires IntegerIs(b, n)
    ensures EndsWell(b)
  {
    hide DecimalValue, EndsWell;
    var negative: bool, digits: string :|
      && AllDigits(digits) && 1 <= |digits| <= 15 && b == Sign(negative) + digits
      && n == SignedInteger(negative, DecimalValue(digits));
    DigitsEnd(digits);
    EndsBehind(Sign(negative), digits);
  }

  lemma DecimalEnds(b: string, d: Double)
    requires DecimalIs(b, d)
    ensures EndsWell(b)
  {
    hide DecimalOf;
    var negative: bool, whole: string, fraction: string :|
      && AllDigits(whole) && 1 <= |whole| <= 12 && AllDigits(fraction) && |fraction| <= 3
      && b == Sign(negative) + (whole + ("." + fraction)) && d == DecimalOf(negative, whole, fraction);
    if fraction != [] {
      DigitsEnd(fraction);
    }
    hide AllDigits, Sign, IsDecimal;
    EndsBehind(".", fraction);
    EndsBehind(whole, "." + fraction);
    EndsBehind(Sign(negative), whole + ("." + fraction));
  }

  lemma TokenEnds(s: string)
    requires IsToken(s)
    ensures EndsWell(s)
  {
    assert IsTokenChar(s[|s| - 1]);
  }

  lemma BareEnds(codec: Codec, b: string, item: Item)
    requires BareIs(codec, b, item)
    ensures EndsWell(b)
  {
    hide Padded, Escaped, IsToken, IntegerIs, DecimalIs, IsPrintable;
    match item
    case Integer(n) => IntegerEnds(b, n);
    case Decimal(d) => DecimalEnds(b, d);
    case String(s) =>
    case Token(s) => TokenEnds(s);
    case ByteSequence(x) =>
    case Boolean(v) =>
  }

  lemma ParameterEnds(codec: Codec, b: string, p: (string, Item))
    requires ParameterIs(codec, b, p)
    ensures EndsWell(b)
  {
    hide BareIs, IsKey, EndsWell;
    var spaces: string, v: string :| Spaces(spaces) && ValueIs(codec, v, p.1) && b == ";" + (spaces + (p.0 + v));
    KeyBegins(p.0);
    if v != "" {
      var x: string :| BareIs(codec, x, p.1) && v == "=" + x;
      BareEnds(codec, x, p.1);
      EndsBehind("=", x);
    }
    EndsBehind(p.0, v);
    EndsBehind(spaces, p.0 + v);
    EndsBehind(";", spaces + (p.0 + v));
  }

  lemma {:induction false} ParametersEnd(codec: Codec, parts: seq<string>, raw: Entries<Item>)
    requires ParametersOf(codec, parts, raw)
    ensures Concat(parts) == [] || EndsWell(Concat(parts))
    decreases |parts|
  {
    hide ParameterIs, EndsWell;
    if parts != [] {
      ParametersEnd(codec, parts[1..], raw[1..]);
      ParameterEnds(codec, parts[0], raw[0]);
      EndsBehind(parts[0], Concat(parts[1..]));
    }
  }

  /** Parameters, or none, behind something that ends well. */
  lemma ParametersEndWell(codec: Codec, head: string, ps: string, params: Entries<Item>)
    requires EndsWell(head) && ParametersAre(codec, ps, params)
    ensures EndsWell(head + ps)
  {
    hide ParametersOf, EndsWell, Concat;
    var parts: seq<string>, raw: Entries<Item> :|
      ParametersOf(codec, parts, raw) && ps == Concat(parts) && params == Merged(raw);
    ParametersEnd(codec, parts, raw);
    EndsBehind(head, ps);
  }

  lemma HeadEnds(codec: Codec, b: string, m: Member)
    requires HeadIs(codec, b, m)
    ensures EndsWell(b)
  {
    hide BareIs, InnerItemsOf, Joined, Fits;
    if m.isInnerList {
      assert b[|b| - 1] == ')';
    } else {
      BareEnds(codec, b, m.items[0].item);
    }
  }

  lemma MemberEnds(codec: Codec, b: string, m: Member)
    requires MemberIs(codec, b, m)
    ensures EndsWell(b)
  {
    hide HeadIs, ParametersAre, EndsWell;
    var head: string, ps: string :| HeadIs(codec, head, m) && ParametersAre(codec, ps, m.params) && b == head + ps;
    HeadEnds(codec, head, m);
    ParametersEndWell(codec, head, ps, m.params);
  }
}
