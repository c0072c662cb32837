/** The parser: it works its way through the input, and does what the grammar says. */
module StructuredFieldParser {
  import opened Bytes
  import opened StructuredFields
  import opened StructuredFieldKeys

  /** What a reader that returned `r` and left `rest` behind has read. */
  function Outcome<T>(r: Option<T>, rest: string): Read<T> {
    match r
    case None => Fail
    case Some(v) => Ok(v, rest)
  }

  /** With what was read before in front. */
  function Behind<T>(acc: seq<T>, r: Read<seq<T>>): Read<seq<T>> {
    match r
    case Fail => Fail
    case Ok(v, rest) => Ok(acc + v, rest)
  }

  function BehindAll<T>(acc: seq<T>, r: Option<seq<T>>): Option<seq<T>> {
    match r
    case None => None
    case Some(v) => Some(acc + v)
  }

  lemma BehindNothing<T>(r: Read<seq<T>>)
    ensures Behind([], r) == r
  {
    if r.Ok? {
      assert [] + r.value == r.value;
    }
  }

  lemma BehindTwice<T>(a: seq<T>, b: seq<T>, r: Read<seq<T>>)
    ensures Behind(a, Behind(b, r)) == Behind(a + b, r)
  {
    if r.Ok? {
      assert a + (b + r.value) == a + b + r.value;
    }
  }

  lemma BehindAllNothing<T>(r: Option<seq<T>>)
    ensures BehindAll([], r) == r
  {
    if r.Some? {
      assert [] + r.value == r.value;
    }
  }

  lemma BehindAllTwice<T>(a: seq<T>, b: seq<T>, r: Option<seq<T>>)
    ensures BehindAll(a, BehindAll(b, r)) == BehindAll(a + b, r)
  {
    if r.Some? {
      assert a + (b + r.value) == a + b + r.value;
    }
  }

  lemma NoDigits(negative: bool, s: string)
    requires Span(s, IsDigit) == 0
    ensures ReadDigits(negative, s).Fail?
  {
  }

  predicate IsPlain(c: char) {
    IsPrint(c) && c != '"' && c != '\\'
  }

  /** Characters of a string that need no escape. */
  lemma {:induction false} PlainRun(s: string, n: nat)
    requires n <= |s| && forall i :: 0 <= i < n ==> IsPlain(s[i])
    ensures ReadQuoted(s) == Behind(s[..n], ReadQuoted(s[n..]))
  {
    if n == 0 {
      assert s[0..] == s;
      BehindNothing(ReadQuoted(s));
    } else {
      PlainRun(s[1..], n - 1);
      assert s[1..][n - 1..] == s[n..];
      assert s[..n] == [s[0]] + s[1..][..n - 1];
      assert IsPlain(s[0]);
      BehindTwice([s[0]], s[1..][..n - 1], ReadQuoted(s[n..]));
    }
  }

  /** One more entry, as it is written. */
  lemma MergedOneMore<T>(raw: Entries<T>, e: (string, T))
    ensures Merged(raw + [e]) == Upsert(Merged(raw), e.0, e.1)
  {
    assert (raw + [e])[..|raw|] == raw;
  }

  lemma {:induction false} UpsertAt<T>(entries: Entries<T>, i: nat, value: T)
    requires i < |entries|
    requires forall j :: 0 <= j < i ==> entries[j].0 != entries[i].0
    ensures Upsert(entries, entries[i].0, value) == entries[i := (entries[i].0, value)]
  {
    if i > 0 {
      UpsertAt(entries[1..], i - 1, value);
    }
  }

  class StructuredHeaderParser {
    const codec: Codec
    var input: string

    constructor (codec: Codec, str: string)
      ensures this.codec == codec && input == Skip(str, IsSpace)
    {
      this.codec := codec;
      this.input := Skip(str, IsSpace);
    }

    method SkipWhitespaces()
      modifies this
      ensures input == Skip(old(input), IsSpace)
    {
      input := input[Span(input, IsSpace)..];
    }

    method SkipOws()
      modifies this
      ensures input == Skip(old(input), IsOws)
    {
      input := input[Span(input, IsOws)..];
    }

    method ConsumeChar(expected: char) returns (found: bool)
      modifies this
      ensures found == StartsWith(old(input), expected)
      ensures input == if found then old(input)[1..] else old(input)
    {
      if input != [] && input[0] == expected {
        input := input[1..];
        return true;
      }
      return false;
    }

    method FinishParsing() returns (done: bool)
      modifies this
      ensures done == (Skip(old(input), IsSpace) == [])
    {
      SkipWhitespaces();
      return input == [];
    }

    // -------------------------------------------------------------------------------------------
    // Bare items

    method ReadKey() returns (r: Option<string>)
      modifies this
      ensures StructuredFields.ReadKey(old(input)) == Outcome(r, input)
    {
      if input == [] || (!IsLower(input[0]) && input[0] != '*') {
        return None;
      }
      var len := Span(input, IsKeyChar);
      r := Some(input[..len]);
      input := input[len..];
    }

    method ReadToken() returns (r: Option<Item>)
      modifies this
      ensures StructuredFields.ReadToken(old(input)) == Outcome(r, input)
    {
      if input == [] || !(IsAlpha(input[0]) || input[0] == '*') {
        return None;
      }
      var len := Span(input, IsTokenChar);
      r := Some(Token(input[..len]));
      input := input[len..];
    }

    /** Digits with at most one point between or behind them. */
    method ScanNumber() returns (isDecimal: bool, point: nat, end: nat)
      ensures end <= |input|
      ensures Span(input, IsDigit) == if isDecimal then point else end
      ensures isDecimal <==> 0 < Span(input, IsDigit) < |input| && input[Span(input, IsDigit)] == '.'
      ensures isDecimal ==> point < end && Span(input[point + 1..], IsDigit) == end - point - 1
    {
      isDecimal, point, end := false, 0, 0;
      while end < |input|
        invariant end <= |input|
        invariant !isDecimal ==> forall i :: 0 <= i < end ==> IsDigit(input[i])
        invariant isDecimal ==> 0 < point < end && input[point] == '.'
        invariant isDecimal ==> forall i :: 0 <= i < point ==> IsDigit(input[i])
        invariant isDecimal ==> forall i :: point < i < end ==> IsDigit(input[i])
      {
        if end > 0 && input[end] == '.' && !isDecimal {
          isDecimal := true;
          point := end;
        } else if !IsDigit(input[end]) {
          break;
        }
        end := end + 1;
      }
      SpanIs(input, if isDecimal then point else end, IsDigit);
      if isDecimal {
        SpanIs(input[point + 1..], end - point - 1, IsDigit);
      }
    }

    method ReadNumber() returns (r: Option<Item>)
      modifies this
      ensures StructuredFields.ReadNumber(old(input)) == Outcome(r, input)
    {
      hide ReadDigits;
      var isNegative := ConsumeChar('-');
      var isDecimal, point, end := ScanNumber();
      if end == 0 {
        assert ReadDigits(isNegative, input).Fail? by { NoDigits(isNegative, input); }
        return None;
      }
      if isDecimal {
        r := TakeDecimal(isNegative, point, end);
      } else {
        r := TakeInteger(isNegative, end);
      }
    }

    method TakeInteger(isNegative: bool, end: nat) returns (r: Option<Item>)
      requires 0 < end <= |input| && Span(input, IsDigit) == end
      requires end < |input| ==> input[end] != '.'
      modifies this
      ensures ReadDigits(isNegative, old(input)) == Outcome(r, input)
    {
      hide DecimalValue, SignedInteger;
      if end > 15 {
        return None;
      }
      r := Some(Integer(SignedInteger(isNegative, DecimalValue(input[..end]))));
      input := input[end..];
    }

    method TakeDecimal(isNegative: bool, point: nat, end: nat) returns (r: Option<Item>)
      requires 0 < point < end <= |input| && Span(input, IsDigit) == point && input[point] == '.'
      requires Span(input[point + 1..], IsDigit) == end - point - 1
      modifies this
      ensures ReadDigits(isNegative, old(input)) == Outcome(r, input)
    {
      hide DecimalOf, Span;
      ghost var s, t := input, input[point + 1..];
      assert ReadDigits(isNegative, s) == ReadFraction(isNegative, s[..point], t);
      hide ReadDigits;
      if point > 12 || end - point > 4 {
        return None;
      }
      assert t[..end - point - 1] == s[point + 1..end];
      assert t[end - point - 1..] == s[end..];
      r := Some(Decimal(DecimalOf(isNegative, input[..point], input[point + 1..end])));
      input := input[end..];
    }

    /** How far the input goes on without a quote or an escape. */
    method ScanPlain() returns (r: Option<nat>)
      ensures r.Some? ==> r.value < |input| && forall i :: 0 <= i < r.value ==> IsPlain(input[i])
      ensures r.Some? ==> input[r.value] == '"' || input[r.value] == '\\'
      ensures r.None? ==> ReadQuoted(input).Fail?
    {
      var i := 0;
      while i < |input|
        invariant i <= |input| && forall j :: 0 <= j < i ==> IsPlain(input[j])
      {
        if !IsPrint(input[i]) {
          PlainRun(input, i);
          return None;
        }
        if input[i] == '"' || input[i] == '\\' {
          return Some(i);
        }
        i := i + 1;
      }
      PlainRun(input, |input|);
      return None;
    }

    method ReadString() returns (r: Option<Item>)
      modifies this
      ensures StructuredFields.ReadString(old(input)) == Outcome(r, input)
    {
      var begun := ConsumeChar('"');
      if !begun {
        return None;
      }
      ghost var quoted := input;
      var s := "";
      BehindNothing(ReadQuoted(quoted));
      var closed := ConsumeChar('"');
      while !closed
        invariant closed ==> ReadQuoted(quoted) == Ok(s, input)
        invariant !closed ==> ReadQuoted(quoted) == Behind(s, ReadQuoted(input)) && !StartsWith(input, '"')
        decreases !closed, |input|
      {
        var n := ScanPlain();
        if n.None? {
          return None;
        }
        var more := TakeStringPiece(s, n.value);
        if more.None? {
          return None;
        }
        s := more.value;
        ghost var before := input;
        closed := ConsumeChar('"');
        assert closed ==> ReadQuoted(before) == Ok("", input);
        assert s + "" == s;
      }
      return Some(String(s));
    }

    /** Takes what needs no escape, and the escape behind it if there is one. */
    method TakeStringPiece(s: string, n: nat) returns (r: Option<string>)
      requires n < |input| && forall i :: 0 <= i < n ==> IsPlain(input[i])
      requires input[n] == '"' || input[n] == '\\'
      requires !StartsWith(input, '"')
      modifies this
      ensures r.None? ==> ReadQuoted(old(input)).Fail?
      ensures r.Some? ==> Behind(s, ReadQuoted(old(input))) == Behind(r.value, ReadQuoted(input))
      ensures r.Some? ==> |input| < |old(input)|
    {
      PlainRun(input, n);
      BehindTwice(s, input[..n], ReadQuoted(input[n..]));
      var piece := s + input[..n];
      input := input[n..];
      ghost var before := input;
      var escape := ConsumeChar('\\');
      if !escape {
        return Some(piece);
      }
      if input == [] {
        return None;
      }
      if input[0] != '"' && input[0] != '\\' {
        return None;
      }
      assert before[2..] == input[1..];
      assert ReadQuoted(before) == Behind([input[0]], ReadQuoted(input[1..]));
      BehindTwice(piece, [input[0]], ReadQuoted(input[1..]));
      r := Some(piece + [input[0]]);
      input := input[1..];
    }

    method ReadByteSequence() returns (r: Option<Item>)
      modifies this
      ensures StructuredFields.ReadByteSequence(codec, old(input)) == Outcome(r, input)
    {
      var begun := ConsumeChar(':');
      if !begun {
        return None;
      }
      var len := Span(input, NotColon);
      if len == |input| {
        return None;
      }
      var binary := codec.unescape(Padded(input[..len]));
      if binary.None? {
        return None;
      }
      ghost var s := input;
      input := input[len..];
      var _ := ConsumeChar(':');
      assert input == s[len + 1..];
      return Some(ByteSequence(binary.value));
    }

    method ReadBoolean() returns (r: Option<Item>)
      modifies this
      ensures StructuredFields.ReadBoolean(old(input)) == Outcome(r, input)
    {
      var mark := ConsumeChar('?');
      if !mark {
        return None;
      }
      var yes := ConsumeChar('1');
      if yes {
        return Some(Boolean(true));
      }
      var no := ConsumeChar('0');
      if no {
        return Some(Boolean(false));
      }
      return None;
    }

    method ReadBareItem() returns (r: Option<Item>)
      modifies this
      ensures StructuredFields.ReadBareItem(codec, old(input)) == Outcome(r, input)
    {
      hide StructuredFields.ReadString, StructuredFields.ReadToken, StructuredFields.ReadNumber;
      hide StructuredFields.ReadByteSequence, StructuredFields.ReadBoolean;
      if input == [] {
        return None;
      }
      var c := input[0];
      if c == '"' {
        r := ReadString();
      } else if c == '*' {
        r := ReadToken();
      } else if c == ':' {
        r := ReadByteSequence();
      } else if c == '?' {
        r := ReadBoolean();
      } else if c == '-' || IsDigit(c) {
        r := ReadNumber();
      } else if IsAlpha(c) {
        r := ReadToken();
      } else {
        r := None;
      }
    }

    // -------------------------------------------------------------------------------------------
    // Parameters and items

    method ReadParameter() returns (r: Option<(string, Item)>)
      modifies this
      ensures StructuredFields.ReadParameter(codec, old(input)) == Outcome(r, input)
    {
      hide StructuredFields.ReadKey, StructuredFields.ReadBareItem, Skip;
      SkipWhitespaces();
      var name := ReadKey();
      if name.None? {
        return None;
      }
      var hasValue := ConsumeChar('=');
      if !hasValue {
        return Some((name.value, Boolean(true)));
      }
      var value := ReadBareItem();
      if value.None? {
        return None;
      }
      return Some((name.value, value.value));
    }

    method ReadParameters() returns (r: Option<Entries<Item>>)
      modifies this
      ensures StructuredFields.ReadParameters(codec, old(input)) == Outcome(r, input)
    {
      hide StructuredFields.ReadParameter, Merged;
      var parameters: Entries<Item> := [];
      var keys: set<string> := {};
      ghost var raw: Entries<Item> := [];
      ghost var before := input;
      NothingMerged<Item>();
      BehindNothing(ReadRawParameters(codec, input));
      var more := ConsumeChar(';');
      while more
        invariant parameters == Merged(raw)
        invariant forall k :: k in keys <==> k in Keys(parameters)
        invariant ReadRawParameters(codec, old(input)) == Behind(raw, ReadRawParameters(codec, before))
        invariant more == StartsWith(before, ';')
        invariant input == if more then before[1..] else before
        decreases |before|
      {
        var p := ReadParameter();
        if p.None? {
          return None;
        }
        var entry := p.value;
        ghost var r0 := ReadRawParameters(codec, input);
        assert ReadRawParameters(codec, before) == Behind([entry], r0);
        BehindTwice(raw, [entry], r0);
        MergedOneMore(raw, entry);
        UpsertKeys(parameters, entry.0, entry.1);
        raw := raw + [entry];
        if entry.0 in keys {
          parameters := Replace(parameters, entry.0, entry.1);
        } else {
          UpsertNew(parameters, entry.0, entry.1);
          keys := keys + {entry.0};
          parameters := parameters + [entry];
        }
        before := input;
        more := ConsumeChar(';');
      }
      assert raw + [] == raw;
      return Some(parameters);
    }

    method ReadItem() returns (r: Option<ParameterizedItem>)
      modifies this
      ensures StructuredFields.ReadItem(codec, old(input)) == Outcome(r, input)
    {
      hide StructuredFields.ReadBareItem, StructuredFields.ReadParameters;
      var item := ReadBareItem();
      if item.None? {
        return None;
      }
      var parameters := ReadParameters();
      if parameters.None? {
        return None;
      }
      return Some(ParameterizedItem(item.value, parameters.value));
    }

    method ReadInnerList() returns (r: Option<Member>)
      modifies this
      ensures StructuredFields.ReadInnerList(codec, old(input)) == Outcome(r, input)
    {
      hide StructuredFields.ReadInnerItems, StructuredFields.ReadParameters;
      var begun := ConsumeChar('(');
      if !begun {
        return None;
      }
      var items := ReadInnerItems();
      if items.None? {
        return None;
      }
      var parameters := ReadParameters();
      if parameters.None? {
        return None;
      }
      return Some(Member(items.value, true, parameters.value));
    }

    method ReadInnerItems() returns (r: Option<seq<ParameterizedItem>>)
      modifies this
      ensures StructuredFields.ReadInnerItems(codec, old(input)) == Outcome(r, input)
    {
      hide StructuredFields.ReadItem, Skip;
      var items: seq<ParameterizedItem> := [];
      BehindNothing(StructuredFields.ReadInnerItems(codec, input));
      ghost var before := input;
      SkipWhitespaces();
      var closed := ConsumeChar(')');
      while !closed
        invariant StructuredFields.ReadInnerItems(codec, old(input))
               == Behind(items, StructuredFields.ReadInnerItems(codec, before))
        invariant closed == StartsWith(Skip(before, IsSpace), ')')
        invariant input == if closed then Skip(before, IsSpace)[1..] else Skip(before, IsSpace)
        decreases |before|
      {
        var item := ReadItem();
        if item.None? {
          return None;
        }
        if input == [] || (input[0] != ' ' && input[0] != ')') {
          return None;
        }
        ghost var r0 := StructuredFields.ReadInnerItems(codec, input);
        assert StructuredFields.ReadInnerItems(codec, before) == Behind([item.value], r0);
        BehindTwice(items, [item.value], r0);
        items := items + [item.value];
        before := input;
        SkipWhitespaces();
        closed := ConsumeChar(')');
      }
      assert items + [] == items;
      return Some(items);
    }

    method ReadItemOrInnerList() returns (r: Option<Member>)
      modifies this
      ensures ReadMember(codec, old(input)) == Outcome(r, input)
    {
      hide StructuredFields.ReadInnerList, StructuredFields.ReadItem;
      if input != [] && input[0] == '(' {
        r := ReadInnerList();
      } else {
        var item := ReadItem();
        if item.None? {
          return None;
        }
        return Some(SingleItem(item.value.item, item.value.params));
      }
    }

    // -------------------------------------------------------------------------------------------
    // Lists and dictionaries

    /** The comma behind a member; `None` if something else is there, or nothing behind the comma. */
    method FinishMember() returns (last: Option<bool>)
      modifies this
      ensures last.None? <==> AfterMember(old(input)).None?
      ensures last.Some? ==> AfterMember(old(input)) == Some(input) && last.value == (input == [])
    {
      hide Skip;
      SkipOws();
      if input == [] {
        return Some(true);
      }
      var comma := ConsumeChar(',');
      if !comma {
        return None;
      }
      SkipOws();
      if input == [] {
        return None;
      }
      return Some(false);
    }

    method ReadList() returns (r: Option<Members>)
      modifies this
      ensures r == StructuredFields.ReadList(codec, old(input))
      ensures r.Some? ==> input == []
    {
      hide ReadMember, AfterMember;
      var members: Members := [];
      BehindAllNothing(StructuredFields.ReadList(codec, input));
      while input != []
        invariant StructuredFields.ReadList(codec, old(input))
               == BehindAll(members, StructuredFields.ReadList(codec, input))
        decreases |input|
      {
        ghost var before := input;
        var member := ReadItemOrInnerList();
        if member.None? {
          return None;
        }
        ghost var behind := input;
        var last := FinishMember();
        if last.None? {
          return None;
        }
        ghost var r0 := StructuredFields.ReadList(codec, input);
        assert StructuredFields.ReadList(codec, before) == BehindAll([member.value], r0);
        BehindAllTwice(members, [member.value], r0);
        members := members + [member.value];
        if last.value {
          break;
        }
      }
      assert members + [] == members;
      return Some(members);
    }

    method ReadDictionaryMember() returns (r: Option<Member>)
      modifies this
      ensures ReadDictionaryValue(codec, old(input)) == Outcome(r, input)
    {
      hide ReadMember, StructuredFields.ReadParameters;
      var hasValue := ConsumeChar('=');
      if hasValue {
        r := ReadItemOrInnerList();
      } else {
        var parameters := ReadParameters();
        if parameters.None? {
          return None;
        }
        return Some(SingleItem(Boolean(true), parameters.value));
      }
    }

    method ReadDictionary() returns (r: Option<Dictionary>)
      modifies this
      ensures ReadRawDictionary(codec, old(input)).None? ==> r.None?
      ensures ReadRawDictionary(codec, old(input)).Some? ==>
                r == Some(Merged(ReadRawDictionary(codec, old(input)).value))
      ensures r.Some? ==> input == []
    {
      hide StructuredFields.ReadKey, ReadDictionaryValue, AfterMember, Merged;
      var members: Dictionary := [];
      ghost var raw: Dictionary := [];
      NothingMerged<Member>();
      BehindAllNothing(ReadRawDictionary(codec, input));
      while input != []
        invariant members == Merged(raw)
        invariant ReadRawDictionary(codec, old(input)) == BehindAll(raw, ReadRawDictionary(codec, input))
        decreases |input|
      {
        ghost var before := input;
        var key := ReadKey();
        if key.None? {
          return None;
        }
        var member := ReadDictionaryMember();
        if member.None? {
          return None;
        }
        members := Assign(members, key.value, member.value);
        var last := FinishMember();
        if last.None? {
          return None;
        }
        ghost var entry := (key.value, member.value);
        ghost var r0 := ReadRawDictionary(codec, input);
        assert ReadRawDictionary(codec, before) == BehindAll([entry], r0);
        BehindAllTwice(raw, [entry], r0);
        MergedOneMore(raw, entry);
        raw := raw + [entry];
        if last.value {
          break;
        }
      }
      assert raw + [] == raw;
      return Some(members);
    }
  }

  lemma NothingMerged<T>()
    ensures Merged<T>([]) == []
  {
  }

  /** Gives a key that is there a new value. */
  method Replace<T>(entries: Entries<T>, key: string, value: T) returns (r: Entries<T>)
    requires key in Keys(entries)
    ensures r == Upsert(entries, key, value)
  {
    var i := 0;
    while entries[i].0 != key
      invariant i < |entries| && key in Keys(entries)[i..]
      invariant forall j :: 0 <= j < i ==> entries[j].0 != key
      decreases |entries| - i
    {
      assert Keys(entries)[i..] == [Keys(entries)[i]] + Keys(entries)[i + 1..];
      i := i + 1;
    }
    UpsertAt(entries, i, value);
    r := entries[i := (key, value)];
  }

  /** Gives a key a value, whether it is there or not. */
  method Assign<T>(entries: Entries<T>, key: string, value: T) returns (r: Entries<T>)
    ensures r == Upsert(entries, key, value)
  {
    var i := 0;
    while i < |entries| && entries[i].0 != key
      invariant i <= |entries| && forall j :: 0 <= j < i ==> entries[j].0 != key
    {
      i := i + 1;
    }
    if i < |entries| {
      UpsertAt(entries, i, value);
      r := entries[i := (key, value)];
    } else {
      UpsertNew(entries, key, value);
      r := entries + [(key, value)];
    }
  }

  // ---------------------------------------------------------------------------------------------
  // Whole fields

  method ParseItem(codec: Codec, str: string) returns (r: Option<ParameterizedItem>)
    ensures r == StructuredFields.ParseItem(codec, str)
  {
    hide StructuredFields.ReadItem, Skip;
    var parser := new StructuredHeaderParser(codec, str);
    var item := parser.ReadItem();
    if item.Some? {
      var done := parser.FinishParsing();
      if done {
        return item;
      }
    }
    return None;
  }

  method ParseList(codec: Codec, str: string) returns (r: Option<Members>)
    ensures r == StructuredFields.ParseList(codec, str)
  {
    var parser := new StructuredHeaderParser(codec, str);
    var list := parser.ReadList();
    if list.Some? {
      var done := parser.FinishParsing();
      if done {
        return list;
      }
    }
    return None;
  }

  method ParseDictionary(codec: Codec, str: string) returns (r: Option<Dictionary>)
    ensures r == StructuredFields.ParseDictionary(codec, str)
  {
    var parser := new StructuredHeaderParser(codec, str);
    var dictionary := parser.ReadDictionary();
    if dictionary.Some? {
      var done := parser.FinishParsing();
      if done {
        return dictionary;
      }
    }
    return None;
  }
}
