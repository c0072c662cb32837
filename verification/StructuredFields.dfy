/** Structured field values (RFC 8941) and the grammar by which they are parsed (section 4.2). */
module StructuredFields {
  import opened Bytes
  import opened Doubles

  // ---------------------------------------------------------------------------------------------
  // Values

  /** A bare item. */
  datatype Item =
    | Null
    | Integer(n: int)
    | Decimal(d: Double)
    | String(s: string)
    | Token(s: string)
    | ByteSequence(bytes: seq<byte>)
    | Boolean(value: bool)

  /** Keys with values, in order. */
  type Entries<T> = seq<(string, T)>

  datatype ParameterizedItem = ParameterizedItem(item: Item, params: Entries<Item>)

  /** A list or dictionary member: an inner list, or a single item. */
  datatype Member = Member(items: seq<ParameterizedItem>, isInnerList: bool, params: Entries<Item>)

  type Members = seq<Member>
  type Dictionary = Entries<Member>

  /** The base64 functions that byte sequences are written and read with. */
  datatype Codec = Codec(escape: seq<byte> -> string, unescape: string -> Option<seq<byte>>)

  /** A value and the input left behind it. */
  datatype Read<+T> = Fail | Ok(value: T, rest: string)

  // ---------------------------------------------------------------------------------------------
  // Characters

  predicate IsDigit(c: char) { '0' <= c <= '9' }
  predicate IsLower(c: char) { 'a' <= c <= 'z' }
  predicate IsAlpha(c: char) { IsLower(c) || 'A' <= c <= 'Z' }
  predicate IsPrint(c: char) { ' ' <= c <= '~' }
  predicate IsSpace(c: char) { c == ' ' }
  predicate IsOws(c: char) { c == ' ' || c == '\t' }

  predicate IsKeyChar(c: char) {
    IsDigit(c) || IsLower(c) || c in "_-.*"
  }

  predicate IsTokenChar(c: char) {
    IsDigit(c) || IsAlpha(c) || c in "!#$%&'*+-.^_`|~" || c in ":/"
  }

  predicate NotColon(c: char) { c != ':' }

  /** How many characters at the front of `s` satisfy `p`. */
  function Span(s: string, p: char -> bool): (n: nat)
    ensures n <= |s|
    ensures forall i :: 0 <= i < n ==> p(s[i])
    ensures n < |s| ==> !p(s[n])
  {
    if s == [] || !p(s[0]) then 0 else 1 + Span(s[1..], p)
  }

  /** There is only one place where a span can end. */
  lemma SpanIs(s: string, n: nat, p: char -> bool)
    requires n <= |s|
    requires forall i :: 0 <= i < n ==> p(s[i])
    requires n < |s| ==> !p(s[n])
    ensures Span(s, p) == n
  {
    hide Span;
  }

  function Skip(s: string, p: char -> bool): (r: string)
    ensures |r| <= |s|
  {
    s[Span(s, p)..]
  }

  predicate StartsWith(s: string, c: char) {
    s != [] && s[0] == c
  }

  // ---------------------------------------------------------------------------------------------
  // Bare items

  function ReadKey(s: string): (r: Read<string>)
    ensures r.Ok? ==> |r.rest| < |s|
  {
    if s == [] || !(IsLower(s[0]) || s[0] == '*') then Fail
    else Ok(s[..Span(s, IsKeyChar)], s[Span(s, IsKeyChar)..])
  }

  function ReadToken(s: string): (r: Read<Item>)
    ensures r.Ok? ==> |r.rest| < |s|
  {
    if s == [] || !(IsAlpha(s[0]) || s[0] == '*') then Fail
    else Ok(Token(s[..Span(s, IsTokenChar)]), s[Span(s, IsTokenChar)..])
  }

  /** The number that a string of digits stands for. */
  function DecimalValue(s: string): (v: nat)
    requires forall i :: 0 <= i < |s| ==> IsDigit(s[i])
  {
    if s == [] then 0
    else
      assert IsDigit(s[|s| - 1]);
      DecimalValue(s[..|s| - 1]) * 10 + DigitValue(s[|s| - 1])
  }

  function DigitValue(c: char): (v: nat)
    requires IsDigit(c)
    ensures v < 10
  {
    c as int - '0' as int
  }

  /** What digits behind a point count for, at most three of them. */
  function FractionValue(s: string): (v: real)
    requires |s| <= 3
    requires forall i :: 0 <= i < |s| ==> IsDigit(s[i])
  {
    var n := DecimalValue(s) as real;
    if |s| == 0 then 0.0 else if |s| == 1 then n / 10.0 else if |s| == 2 then n / 100.0 else n / 1000.0
  }

  function SignedInteger(negative: bool, v: int): int {
    if negative then -v else v
  }

  /** A string of at most twelve digits in front of a point, and one of at most three behind it. */
  predicate IsDecimal(whole: string, fraction: string) {
    && |whole| <= 12 && (forall i :: 0 <= i < |whole| ==> IsDigit(whole[i]))
    && |fraction| <= 3 && (forall i :: 0 <= i < |fraction| ==> IsDigit(fraction[i]))
  }

  /** How many thousandths the digits stand for. */
  function DecimalThousandths(whole: string, fraction: string): (n: nat)
    requires IsDecimal(whole, fraction)
    ensures n < 1_000_000_000_000_000
    ensures n as real / 1000.0 == DecimalValue(whole) as real + FractionValue(fraction)
  {
    Pow10Values();
    DecimalValueBound(whole);
    DecimalValueBound(fraction);
    Pow10Grows(|whole|, 12);
    var k := DecimalValue(fraction);
    DecimalValue(whole) * 1000
    + if |fraction| == 0 then 0 else if |fraction| == 1 then k * 100 else if |fraction| == 2 then k * 10 else k
  }

  /** The double that the digits are read as. */
  function DecimalOf(negative: bool, whole: string, fraction: string): Double
    requires IsDecimal(whole, fraction)
  {
    Signed(negative, DecimalThousandths(whole, fraction) as real / 1000.0)
  }

  // ---------------------------------------------------------------------------------------------
  // How large a number of so many digits can be

  function Pow10(k: nat): nat {
    if k == 0 then 1 else 10 * Pow10(k - 1)
  }

  lemma Pow10Values()
    ensures Pow10(0) == 1 && Pow10(1) == 10 && Pow10(2) == 100 && Pow10(3) == 1000
    ensures Pow10(12) == 1_000_000_000_000
    ensures Pow10(15) == 1_000_000_000_000_000
  {
    assert Pow10(5) == 100_000;
    assert Pow10(10) == 10_000_000_000;
  }

  lemma {:induction false} Pow10Grows(a: nat, b: nat)
    requires a <= b
    ensures Pow10(a) <= Pow10(b)
  {
    if a < b {
      Pow10Grows(a, b - 1);
    }
  }

  lemma {:induction false} DecimalValueBound(s: string)
    requires forall i :: 0 <= i < |s| ==> IsDigit(s[i])
    ensures DecimalValue(s) < Pow10(|s|)
  {
    if s != [] {
      DecimalValueBound(s[..|s| - 1]);
      assert IsDigit(s[|s| - 1]);
    }
  }

  // ---------------------------------------------------------------------------------------------
  // Numbers

  /** What comes behind the point. */
  function ReadFraction(negative: bool, whole: string, s: string): (r: Read<Item>)
    requires forall i :: 0 <= i < |whole| ==> IsDigit(whole[i])
    ensures r.Ok? ==> |r.rest| <= |s|
  {
    var n := Span(s, IsDigit);
    if |whole| > 12 || n + 1 > 4 then Fail
    else Ok(Decimal(DecimalOf(negative, whole, s[..n])), s[n..])
  }

  /** Digits, optionally with a point that is not in front; at most 15 digits, or 12 and 3. */
  function ReadDigits(negative: bool, s: string): (r: Read<Item>)
    ensures r.Ok? ==> |r.rest| < |s|
  {
    var n := Span(s, IsDigit);
    if n == 0 then Fail
    else if n < |s| && s[n] == '.' then ReadFraction(negative, s[..n], s[n + 1..])
    else if n > 15 then Fail
    else Ok(Integer(SignedInteger(negative, DecimalValue(s[..n]))), s[n..])
  }

  function ReadNumber(s: string): (r: Read<Item>)
    ensures r.Ok? ==> |r.rest| < |s|
  {
    if StartsWith(s, '-') then ReadDigits(true, s[1..]) else ReadDigits(false, s)
  }

  /** The inside of a string and its closing quote. */
  function ReadQuoted(s: string): (r: Read<string>)
    ensures r.Ok? ==> |r.rest| < |s|
    decreases |s|
  {
    if s == [] || !IsPrint(s[0]) then Fail
    else if s[0] == '"' then Ok([], s[1..])
    else if s[0] == '\\' then
      if |s| == 1 || (s[1] != '"' && s[1] != '\\') then Fail
      else Prefixed(s[1], ReadQuoted(s[2..]))
    else Prefixed(s[0], ReadQuoted(s[1..]))
  }

  function Prefixed(c: char, r: Read<string>): Read<string> {
    if r.Fail? then Fail else Ok([c] + r.value, r.rest)
  }

  function ReadString(s: string): (r: Read<Item>)
    ensures r.Ok? ==> |r.rest| < |s|
  {
    if !StartsWith(s, '"') then Fail
    else
      match ReadQuoted(s[1..])
      case Fail => Fail
      case Ok(text, rest) => Ok(String(text), rest)
  }

  /** Up to the next multiple of four. */
  function Padded(s: string): (r: string)
    ensures |r| == (|s| + 3) / 4 * 4
  {
    s + seq((|s| + 3) / 4 * 4 - |s|, _ => '=')
  }

  function ReadByteSequence(codec: Codec, s: string): (r: Read<Item>)
    ensures r.Ok? ==> |r.rest| < |s|
  {
    if !StartsWith(s, ':') then Fail
    else
      var t := s[1..];
      var n := Span(t, NotColon);
      if n == |t| then Fail
      else
        match codec.unescape(Padded(t[..n]))
        case None => Fail
        case Some(binary) => Ok(ByteSequence(binary), t[n + 1..])
  }

  function ReadBoolean(s: string): (r: Read<Item>)
    ensures r.Ok? ==> |r.rest| < |s|
  {
    if |s| < 2 || s[0] != '?' then Fail
    else if s[1] == '1' then Ok(Boolean(true), s[2..])
    else if s[1] == '0' then Ok(Boolean(false), s[2..])
    else Fail
  }

  function ReadBareItem(codec: Codec, s: string): (r: Read<Item>)
    ensures r.Ok? ==> |r.rest| < |s|
  {
    if s == [] then Fail
    else if s[0] == '"' then ReadString(s)
    else if s[0] == '*' then ReadToken(s)
    else if s[0] == ':' then ReadByteSequence(codec, s)
    else if s[0] == '?' then ReadBoolean(s)
    else if s[0] == '-' || IsDigit(s[0]) then ReadNumber(s)
    else if IsAlpha(s[0]) then ReadToken(s)
    else Fail
  }

  // ---------------------------------------------------------------------------------------------
  // Keys that come more than once

  /** A known key keeps its place and takes the new value; a new key goes to the end. */
  function Upsert<T>(entries: Entries<T>, key: string, value: T): (r: Entries<T>)
    ensures r != []
  {
    if entries == [] then [(key, value)]
    else if entries[0].0 == key then [(key, value)] + entries[1..]
    else [entries[0]] + Upsert(entries[1..], key, value)
  }

  /** What is left of `raw` when keys that come more than once are merged. */
  function Merged<T>(raw: Entries<T>): (r: Entries<T>)
    decreases |raw|
  {
    if raw == [] then []
    else Upsert(Merged(raw[..|raw| - 1]), raw[|raw| - 1].0, raw[|raw| - 1].1)
  }

  // ---------------------------------------------------------------------------------------------
  // Items, inner lists, lists and dictionaries

  /** One parameter behind its semicolon; without a value it is true. */
  function ReadParameter(codec: Codec, s: string): (r: Read<(string, Item)>)
    ensures r.Ok? ==> |r.rest| < |s|
  {
    match ReadKey(Skip(s, IsSpace))
    case Fail => Fail
    case Ok(key, rest) =>
      if StartsWith(rest, '=') then
        match ReadBareItem(codec, rest[1..])
        case Fail => Fail
        case Ok(value, rest1) => Ok((key, value), rest1)
      else Ok((key, Boolean(true)), rest)
  }

  /** All parameters as written. */
  function ReadRawParameters(codec: Codec, s: string): (r: Read<Entries<Item>>)
    ensures r.Ok? ==> |r.rest| <= |s|
    decreases |s|
  {
    if !StartsWith(s, ';') then Ok([], s)
    else
      match ReadParameter(codec, s[1..])
      case Fail => Fail
      case Ok(p, rest) =>
        match ReadRawParameters(codec, rest)
        case Fail => Fail
        case Ok(others, rest1) => Ok([p] + others, rest1)
  }

  function ReadParameters(codec: Codec, s: string): (r: Read<Entries<Item>>)
    ensures r.Ok? ==> |r.rest| <= |s|
  {
    match ReadRawParameters(codec, s)
    case Fail => Fail
    case Ok(raw, rest) => Ok(Merged(raw), rest)
  }

  function ReadItem(codec: Codec, s: string): (r: Read<ParameterizedItem>)
    ensures r.Ok? ==> |r.rest| < |s|
  {
    match ReadBareItem(codec, s)
    case Fail => Fail
    case Ok(item, rest) =>
      match ReadParameters(codec, rest)
      case Fail => Fail
      case Ok(params, rest1) => Ok(ParameterizedItem(item, params), rest1)
  }

  /** Items up to the closing parenthesis; each is followed by a space or by the parenthesis. */
  function ReadInnerItems(codec: Codec, s: string): (r: Read<seq<ParameterizedItem>>)
    ensures r.Ok? ==> |r.rest| < |s|
    decreases |s|
  {
    var t := Skip(s, IsSpace);
    if StartsWith(t, ')') then Ok([], t[1..])
    else
      match ReadItem(codec, t)
      case Fail => Fail
      case Ok(item, rest) =>
        if !StartsWith(rest, ' ') && !StartsWith(rest, ')') then Fail
        else
          match ReadInnerItems(codec, rest)
          case Fail => Fail
          case Ok(others, rest1) => Ok([item] + others, rest1)
  }

  function ReadInnerList(codec: Codec, s: string): (r: Read<Member>)
    ensures r.Ok? ==> |r.rest| < |s|
  {
    if !StartsWith(s, '(') then Fail
    else
      match ReadInnerItems(codec, s[1..])
      case Fail => Fail
      case Ok(items, rest) =>
        match ReadParameters(codec, rest)
        case Fail => Fail
        case Ok(params, rest1) => Ok(Member(items, true, params), rest1)
  }

  function SingleItem(item: Item, params: Entries<Item>): Member {
    Member([ParameterizedItem(item, [])], false, params)
  }

  function ReadMember(codec: Codec, s: string): (r: Read<Member>)
    ensures r.Ok? ==> |r.rest| < |s|
  {
    if StartsWith(s, '(') then ReadInnerList(codec, s)
    else
      match ReadItem(codec, s)
      case Fail => Fail
      case Ok(item, rest) => Ok(SingleItem(item.item, item.params), rest)
  }

  /** What comes after a member: nothing, or a comma and something more. */
  function AfterMember(s: string): (r: Option<string>)
    ensures r.Some? ==> |r.value| <= |s|
  {
    var t := Skip(s, IsOws);
    if t == [] then Some([])
    else if t[0] != ',' then None
    else
      var u := Skip(t[1..], IsOws);
      if u == [] then None else Some(u)
  }

  function ReadList(codec: Codec, s: string): (r: Option<Members>)
    decreases |s|
  {
    if s == [] then Some([])
    else
      match ReadMember(codec, s)
      case Fail => None
      case Ok(member, rest) =>
        match AfterMember(rest)
        case None => None
        case Some(rest1) =>
          match ReadList(codec, rest1)
          case None => None
          case Some(others) => Some([member] + others)
  }

  /** A dictionary member behind its key; without a value it is true. */
  function ReadDictionaryValue(codec: Codec, s: string): (r: Read<Member>)
    ensures r.Ok? ==> |r.rest| <= |s|
  {
    if StartsWith(s, '=') then ReadMember(codec, s[1..])
    else
      match ReadParameters(codec, s)
      case Fail => Fail
      case Ok(params, rest) => Ok(SingleItem(Boolean(true), params), rest)
  }

  /** All members as written. */
  function ReadRawDictionary(codec: Codec, s: string): (r: Option<Dictionary>)
    decreases |s|
  {
    if s == [] then Some([])
    else
      match ReadKey(s)
      case Fail => None
      case Ok(key, rest) =>
        match ReadDictionaryValue(codec, rest)
        case Fail => None
        case Ok(member, rest1) =>
          match AfterMember(rest1)
          case None => None
          case Some(rest2) =>
            match ReadRawDictionary(codec, rest2)
            case None => None
            case Some(others) => Some([(key, member)] + others)
  }

  // ---------------------------------------------------------------------------------------------
  // Whole fields

  function ParseItem(codec: Codec, s: string): (r: Option<ParameterizedItem>) {
    match ReadItem(codec, Skip(s, IsSpace))
    case Fail => None
    case Ok(item, rest) => if Skip(rest, IsSpace) == [] then Some(item) else None
  }

  function ParseList(codec: Codec, s: string): (r: Option<Members>) {
    ReadList(codec, Skip(s, IsSpace))
  }

  function ParseDictionary(codec: Codec, s: string): (r: Option<Dictionary>) {
    match ReadRawDictionary(codec, Skip(s, IsSpace))
    case None => None
    case Some(raw) => Some(Merged(raw))
  }
}
