/** The texts of bare items and keys, said of the characters alone (RFC 8941, section 3), and that the parser
    takes exactly these. */
module StructuredFieldBareTexts {
  import opened Bytes
  import opened Doubles
  import opened StructuredFields
  import opened StructuredFieldText
  import opened StructuredFieldItems

  // ---------------------------------------------------------------------------------------------
  // Characters

  const DIGITS: string := "0123456789"
  const LOWER: string := "abcdefghijklmnopqrstuvwxyz"
  const UPPER: string := "ABCDEFGHIJKLMNOPQRSTUVWXYZ"

  /** The classes of characters, one by one. */
  lemma CharacterClasses(c: char)
    ensures IsDigit(c) <==> c in DIGITS
    ensures IsLower(c) <==> c in LOWER
    ensures IsAlpha(c) <==> c in LOWER || c in UPPER
    ensures IsKeyChar(c) <==> c in LOWER || c in DIGITS || c in "_-.*"
    ensures IsTokenChar(c) <==> c in LOWER || c in UPPER || c in DIGITS || c in "!#$%&'*+-.^_`|~:/"
    ensures IsPrint(c) <==> 0x20 <= c as int <= 0x7e
  {
  }

  /** The value of a digit is its place. */
  lemma DigitIs(c: char, d: nat)
    requires d < 10
    ensures IsDigit(c) && DigitValue(c) == d <==> c == DIGITS[d]
  {
  }

  predicate AllDigits(s: string) {
    forall i :: 0 <= i < |s| ==> IsDigit(s[i])
  }

  // ---------------------------------------------------------------------------------------------
  // Texts

  function Sign(negative: bool): string {
    if negative then "-" else ""
  }

  /** Up to fifteen digits. */
  ghost predicate IntegerIs(b: string, n: int) {
    exists negative: bool, digits: string ::
      && AllDigits(digits) && 1 <= |digits| <= 15 && b == Sign(negative) + digits
      && n == SignedInteger(negative, DecimalValue(digits))
  }

  /** Up to twelve digits, a point, and up to three more, which may be none. */
  ghost predicate DecimalIs(b: string, d: Double) {
    exists negative: bool, whole: string, fraction: string ::
      && AllDigits(whole) && 1 <= |whole| <= 12 && AllDigits(fraction) && |fraction| <= 3
      && b == Sign(negative) + (whole + ("." + fraction))
      && d == DecimalOf(negative, whole, fraction)
  }

  /** In quotes, with a backslash in front of every quote and backslash and of nothing else. */
  predicate StringIs(b: string, s: string) {
    IsPrintable(s) && b == "\"" + Escaped(s) + "\""
  }

  /** Between colons, in base64 of which the padding may be left off. */
  ghost predicate BytesAre(codec: Codec, b: string, x: seq<byte>) {
    exists e: string :: ':' !in e && b == ":" + e + ":" && codec.unescape(Padded(e)) == Some(x)
  }

  /** The text of a bare item. */
  ghost predicate BareIs(codec: Codec, b: string, item: Item) {
    match item
    case Null => false
    case Integer(n) => IntegerIs(b, n)
    case Decimal(d) => DecimalIs(b, d)
    case String(s) => StringIs(b, s)
    case Token(s) => IsToken(s) && b == s
    case ByteSequence(x) => BytesAre(codec, b, x)
    case Boolean(v) => b == if v then "?1" else "?0"
  }

  /** What can come behind an item, whatever the white space. */
  predicate Stops(rest: string) {
    rest == [] || rest[0] in " \t;,)"
  }

  // ---------------------------------------------------------------------------------------------
  // Such texts are read

  lemma DigitsStop(s: string, rest: string)
    requires AllDigits(s) && (Stops(rest) || rest[0] == '.')
    ensures Span(s + rest, IsDigit) == |s| && (s + rest)[..|s|] == s && (s + rest)[|s|..] == rest
  {
    hide Span;
    SpanStops(s, rest, IsDigit);
  }

  lemma WholeIsRead(negative: bool, digits: string, rest: string)
    requires AllDigits(digits) && 1 <= |digits| <= 15 && Stops(rest)
    ensures ReadDigits(negative, digits + rest) == Ok(Integer(SignedInteger(negative, DecimalValue(digits))), rest)
  {
    hide Span, ReadFraction, DecimalValue;
    DigitsStop(digits, rest);
  }

  lemma NumberIsRead(codec: Codec, negative: bool, digits: string, rest: string)
    requires digits != [] && IsDigit(digits[0])
    ensures ReadBareItem(codec, Sign(negative) + digits + rest) == ReadDigits(negative, digits + rest)
  {
    hide ReadBareItem, ReadDigits;
    var s := digits + rest;
    assert s[0] == digits[0];
    NumberStart(codec, negative, s);
    assert Sign(negative) + digits + rest == Sign(negative) + s;
  }

  lemma IntegerIsRead(codec: Codec, negative: bool, digits: string, rest: string)
    requires AllDigits(digits) && 1 <= |digits| <= 15 && Stops(rest)
    ensures ReadBareItem(codec, Sign(negative) + digits + rest)
         == Ok(Integer(SignedInteger(negative, DecimalValue(digits))), rest)
  {
    hide ReadBareItem, ReadDigits, DecimalValue, Stops, Sign, SignedInteger;
    WholeIsRead(negative, digits, rest);
    NumberIsRead(codec, negative, digits, rest);
  }

  lemma DecimalIsRead(codec: Codec, negative: bool, whole: string, fraction: string, rest: string)
    requires AllDigits(whole) && 1 <= |whole| <= 12 && AllDigits(fraction) && |fraction| <= 3 && Stops(rest)
    ensures ReadBareItem(codec, Sign(negative) + (whole + ("." + fraction)) + rest)
         == Ok(Decimal(DecimalOf(negative, whole, fraction)), rest)
  {
    hide Span, ReadBareItem, ReadDigits, ReadFraction, DecimalOf;
    var s := whole + ("." + (fraction + rest));
    ReadDigitsPoint(negative, whole, fraction + rest);
    FractionIsRead(negative, whole, fraction, rest);
    NumberStart(codec, negative, s);
    assert Sign(negative) + (whole + ("." + fraction)) + rest == Sign(negative) + s;
  }

  lemma FractionIsRead(negative: bool, whole: string, fraction: string, rest: string)
    requires AllDigits(whole) && |whole| <= 12 && AllDigits(fraction) && |fraction| <= 3 && Stops(rest)
    ensures ReadFraction(negative, whole, fraction + rest) == Ok(Decimal(DecimalOf(negative, whole, fraction)), rest)
  {
    hide Span, DecimalOf;
    DigitsStop(fraction, rest);
  }

  lemma BytesAreRead(codec: Codec, e: string, x: seq<byte>, rest: string)
    requires ':' !in e && codec.unescape(Padded(e)) == Some(x)
    ensures ReadBareItem(codec, ":" + e + ":" + rest) == Ok(ByteSequence(x), rest)
  {
    hide Padded, Span;
    SpanStops(e, ":" + rest, NotColon);
    var text := ":" + e + ":" + rest;
    assert text[1..] == e + (":" + rest) && text[0] == ':';
    assert text[1..][|e| + 1..] == rest;
    hide ReadString, ReadToken, ReadBoolean, ReadNumber;
  }

  lemma TokenIsRead(codec: Codec, s: string, rest: string)
    requires IsToken(s) && Stops(rest)
    ensures ReadBareItem(codec, s + rest) == Ok(Token(s), rest)
  {
    hide Span, ReadString, ReadByteSequence, ReadBoolean, ReadNumber;
    SpanStops(s, rest, IsTokenChar);
    assert (s + rest)[0] == s[0];
  }

  lemma BareIsRead(codec: Codec, b: string, item: Item, rest: string)
    requires BareIs(codec, b, item) && Stops(rest)
    ensures ReadBareItem(codec, b + rest) == Ok(item, rest)
  {
    hide ReadBareItem, DecimalValue, DecimalOf, Padded, Escaped, IsPrintable, IsToken, Stops;
    match item
    case Integer(n) =>
      var negative: bool, digits: string :|
        && AllDigits(digits) && 1 <= |digits| <= 15 && b == Sign(negative) + digits
        && n == SignedInteger(negative, DecimalValue(digits));
      IntegerIsRead(codec, negative, digits, rest);
    case Decimal(d) =>
      var negative: bool, whole: string, fraction: string :|
        && AllDigits(whole) && 1 <= |whole| <= 12 && AllDigits(fraction) && |fraction| <= 3
        && b == Sign(negative) + (whole + ("." + fraction)) && d == DecimalOf(negative, whole, fraction);
      DecimalIsRead(codec, negative, whole, fraction, rest);
    case String(s) => StringRoundTrip(codec, s, rest);
    case Token(s) => TokenIsRead(codec, s, rest);
    case ByteSequence(x) =>
      var e: string :| ':' !in e && b == ":" + e + ":" && codec.unescape(Padded(e)) == Some(x);
      BytesAreRead(codec, e, x, rest);
    case Boolean(v) => BooleanRoundTrip(codec, v, rest);
  }

  // ---------------------------------------------------------------------------------------------
  // What is read is such a text

  lemma DigitsWereRead(negative: bool, s: string) returns (b: string)
    requires ReadDigits(negative, s).Ok?
    ensures var Ok(item, rest) := ReadDigits(negative, s);
            && s == b + rest && b != [] && IsDigit(b[0])
            && (item.Integer? || item.Decimal?)
            && (item.Integer? ==> IntegerIs(Sign(negative) + b, item.n))
            && (item.Decimal? ==> DecimalIs(Sign(negative) + b, item.d))
  {
    hide Span, DecimalValue, DecimalOf;
    var n := Span(s, IsDigit);
    var whole := s[..n];
    assert AllDigits(whole);
    if n < |s| && s[n] == '.' {
      var t := s[n + 1..];
      var k := Span(t, IsDigit);
      var fraction := t[..k];
      assert AllDigits(fraction);
      b := whole + ("." + fraction);
      assert s == b + t[k..];
      assert Sign(negative) + b == Sign(negative) + (whole + ("." + fraction));
    } else {
      b := whole;
    }
  }

  /** One character of a string, with the backslash that it may have. */
  lemma QuotedBegins(s: string) returns (c: char, tail: string)
    requires ReadQuoted(s).Ok? && s[0] != '"'
    ensures IsPrint(c) && s == EscapedChar(c) + tail && |tail| < |s|
    ensures ReadQuoted(s) == Prefixed(c, ReadQuoted(tail))
  {
    if s[0] == '\\' {
      c, tail := s[1], s[2..];
      assert s == ['\\', c] + tail;
    } else {
      c, tail := s[0], s[1..];
      assert s == [c] + tail;
    }
  }

  lemma EscapedCons(c: char, text: string)
    ensures Escaped([c] + text) == EscapedChar(c) + Escaped(text)
  {
    hide EscapedChar;
    assert ([c] + text)[1..] == text;
  }

  lemma QuotedEnds(s: string)
    requires s != [] && s[0] == '"'
    ensures ReadQuoted(s) == Ok([], s[1..]) && IsPrintable([]) && s == Escaped([]) + ("\"" + s[1..])
  {
    hide EscapedChar;
  }

  lemma QuotedNotEmpty(s: string)
    requires ReadQuoted(s).Ok?
    ensures s != []
  {
  }

  lemma {:induction false} QuotedWasRead(s: string)
    requires ReadQuoted(s).Ok?
    ensures var Ok(text, rest) := ReadQuoted(s); IsPrintable(text) && s == Escaped(text) + ("\"" + rest)
    decreases |s|
  {
    hide Escaped, EscapedChar, ReadQuoted;
    QuotedNotEmpty(s);
    if s[0] == '"' {
      QuotedEnds(s);
    } else {
      var c, tail := QuotedBegins(s);
      QuotedWasRead(tail);
      var text, rest := ReadQuoted(tail).value, ReadQuoted(tail).rest;
      EscapedCons(c, text);
      assert EscapedChar(c) + (Escaped(text) + ("\"" + rest)) == EscapedChar(c) + Escaped(text) + ("\"" + rest);
    }
  }

  lemma StringWasRead(s: string) returns (b: string)
    requires ReadString(s).Ok?
    ensures var Ok(item, rest) := ReadString(s); item.String? && StringIs(b, item.s) && s == b + rest
  {
    hide ReadQuoted, Escaped, IsPrintable;
    QuotedWasRead(s[1..]);
    var Ok(text, rest) := ReadQuoted(s[1..]);
    b := "\"" + Escaped(text) + "\"";
    assert s == "\"" + s[1..];
    assert s == b + rest;
  }

  lemma BytesWereRead(codec: Codec, s: string) returns (b: string)
    requires ReadByteSequence(codec, s).Ok?
    ensures var Ok(item, rest) := ReadByteSequence(codec, s);
            item.ByteSequence? && BytesAre(codec, b, item.bytes) && s == b + rest
  {
    hide Padded, Span;
    var t := s[1..];
    var n := Span(t, NotColon);
    var e := t[..n];
    b := ":" + e + ":";
    assert forall i :: 0 <= i < n ==> NotColon(t[i]);
    assert ':' !in e;
    assert s == b + t[n + 1..];
  }

  lemma TokenWasRead(s: string) returns (b: string)
    requires ReadToken(s).Ok?
    ensures var Ok(item, rest) := ReadToken(s); item.Token? && IsToken(item.s) && b == item.s && s == b + rest
  {
    hide Span;
    var n := Span(s, IsTokenChar);
    b := s[..n];
    assert IsTokenChar(s[0]);
  }

  lemma BareWasRead(codec: Codec, s: string) returns (b: string)
    requires ReadBareItem(codec, s).Ok?
    ensures var Ok(item, rest) := ReadBareItem(codec, s); BareIs(codec, b, item) && s == b + rest
  {
    hide ReadString, ReadToken, ReadByteSequence, ReadDigits, IntegerIs, DecimalIs, BytesAre, StringIs, IsToken;
    if s[0] == '"' {
      b := StringWasRead(s);
    } else if s[0] == '*' || (IsAlpha(s[0]) && !IsDigit(s[0]) && s[0] !in ":?-") {
      b := TokenWasRead(s);
    } else if s[0] == ':' {
      b := BytesWereRead(codec, s);
    } else if s[0] == '?' {
      b := s[..2];
      assert s == b + s[2..];
    } else if s[0] == '-' {
      var d := DigitsWereRead(true, s[1..]);
      b := Sign(true) + d;
      assert s == "-" + s[1..];
      assert s == b + ReadDigits(true, s[1..]).rest;
    } else {
      var d := DigitsWereRead(false, s);
      b := d;
      assert Sign(false) + d == d;
    }
  }

  /** In front of whatever can follow an item, a bare item is read if and only if its text is there. */
  lemma BareItemExactly(codec: Codec, s: string, item: Item, rest: string)
    requires Stops(rest)
    ensures ReadBareItem(codec, s) == Ok(item, rest) <==> exists b: string :: BareIs(codec, b, item) && s == b + rest
  {
    hide ReadBareItem, BareIs, Stops;
    if ReadBareItem(codec, s) == Ok(item, rest) {
      var b := BareWasRead(codec, s);
    }
    forall b: string | BareIs(codec, b, item) && s == b + rest ensures ReadBareItem(codec, s) == Ok(item, rest) {
      BareIsRead(codec, b, item, rest);
    }
  }

  /** How the text of a bare item begins. */
  lemma BareBegins(codec: Codec, b: string, item: Item)
    requires BareIs(codec, b, item)
    ensures b != [] && b[0] !in " \t,;)(="
  {
    hide DecimalValue, DecimalOf, Padded, Escaped;
    match item
    case Integer(n) =>
      var negative: bool, digits: string :|
        && AllDigits(digits) && 1 <= |digits| <= 15 && b == Sign(negative) + digits
        && n == SignedInteger(negative, DecimalValue(digits));
      assert b[0] == if negative then '-' else digits[0];
    case Decimal(d) =>
      var negative: bool, whole: string, fraction: string :|
        && AllDigits(whole) && 1 <= |whole| <= 12 && AllDigits(fraction) && |fraction| <= 3
        && b == Sign(negative) + (whole + ("." + fraction)) && d == DecimalOf(negative, whole, fraction);
      assert b[0] == if negative then '-' else whole[0];
    case String(s) =>
    case Token(s) =>
    case ByteSequence(x) =>
    case Boolean(v) =>
  }

  // ---------------------------------------------------------------------------------------------
  // Keys

  lemma KeyIsRead(key: string, rest: string)
    requires IsKey(key) && (Stops(rest) || rest[0] == '=')
    ensures ReadKey(key + rest) == Ok(key, rest)
  {
    hide Span;
    SpanStops(key, rest, IsKeyChar);
    assert (key + rest)[0] == key[0];
  }

  lemma KeyWasRead(s: string)
    requires ReadKey(s).Ok?
    ensures IsKey(ReadKey(s).value) && s == ReadKey(s).value + ReadKey(s).rest
  {
    hide Span;
    assert IsKeyChar(s[0]);
  }
}
